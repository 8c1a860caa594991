/** What `matchImport` in src/command/index.ts extracts from each text the
    global search collected. It runs the same expression again, now without
    the global flag and with the group widened to take the braces and
    spaces, on the matched text alone. The lemmas below show that this
    second search, confined to the window `s[i..e]` of a match, retraces
    the first one. Every choice that failed on the whole text fails in the
    window, and the choice that succeeded gives the same match, shifted. So
    each pair `getMatchImport` returns holds the text between `import ` and
    ` from ` and the path between the quotes. */
module ImportGroups {
  import opened Text
  import opened Imports

  /** No quote in `[lo, hi)` means `LastQuote` finds none. */
  lemma {:induction false} LastQuoteAbsent(s: string, lo: nat, hi: nat)
    requires hi <= |s|
    requires forall k :: lo <= k < hi ==> !IsQuote(s[k])
    ensures LastQuote(s, lo, hi).None?
    decreases hi
  {
    if lo < hi {
      LastQuoteAbsent(s, lo, hi - 1);
    }
  }

  /** `t` is the window of `s` that starts at `i`. */
  predicate Window(s: string, t: string, i: nat) {
    i + |t| <= |s| && forall x :: 0 <= x < |t| ==> t[x] == s[x + i]
  }

  /** The window ends on a character that is not a space, as every match
      does: it ends on a quote. */
  predicate EndsOnNonSpace(t: string) {
    |t| > 0 && !IsSpace(t[|t| - 1])
  }

  lemma {:induction false} WindowOfSlice(s: string, i: nat, e: nat)
    requires i <= e <= |s|
    ensures Window(s, s[i..e], i)
  {
  }

  /** The window's slices are the text's slices, shifted. */
  lemma {:induction false} WindowSlice(s: string, t: string, i: nat, a: nat, b: nat)
    requires Window(s, t, i) && a <= b <= |t|
    ensures t[a..b] == s[a + i..b + i]
  {
    assert forall x :: 0 <= x < b - a ==> t[a..b][x] == t[a + x] == s[a + x + i];
  }

  /** A tail that fails on the whole text fails in the window. */
  lemma {:induction false} TailEndFailsInside(s: string, t: string, i: nat, h: nat)
    requires Window(s, t, i)
    requires TailEnd(s, h + i).None?
    ensures TailEnd(t, h).None?
  {
    if h + 8 <= |t| && FromAt(t, h) && IsQuote(t[h + 6]) {
      assert t[h] == s[h + i] && t[h + 1] == s[h + 1 + i] && t[h + 2] == s[h + 2 + i];
      assert t[h + 3] == s[h + 3 + i] && t[h + 4] == s[h + 4 + i] && t[h + 5] == s[h + 5 + i];
      assert t[h + 6] == s[h + 6 + i];
      var les := LineEnd(s, h + i + 7);
      var let := LineEnd(t, h + 7);
      LineEndRun(t, h + 7);
      LastQuoteIsLast(s, h + i + 8, les);
      forall y | h + i + 7 <= y < let + i ensures !IsLineTerminator(s[y]) {
        assert s[y] == t[y - i];
      }
      forall k | h + 8 <= k < let ensures !IsQuote(t[k]) {
        assert k + i < les;
        assert t[k] == s[k + i];
      }
      LastQuoteAbsent(t, h + 8, let);
    }
  }

  /** The tail that succeeded on the whole text, ending at the end of the
      window, succeeds in the window with the same end. */
  lemma {:induction false} TailEndInside(s: string, t: string, i: nat, h: nat)
    requires Window(s, t, i)
    requires TailEnd(s, h + i) == Some(i + |t|)
    ensures TailEnd(t, h) == Some(|t|)
  {
    var les := LineEnd(s, h + i + 7);
    match LastQuote(s, h + i + 8, les)
    case None =>
    case Some(k) =>
      assert k == i + |t| - 1;
      LineEndRun(s, h + i + 7);
      assert t[h] == s[h + i] && t[h + 1] == s[h + 1 + i] && t[h + 2] == s[h + 2 + i];
      assert t[h + 3] == s[h + 3 + i] && t[h + 4] == s[h + 4 + i] && t[h + 5] == s[h + 5 + i];
      assert t[h + 6] == s[h + 6 + i];
      forall x | h + 7 <= x < |t| ensures !IsLineTerminator(t[x]) {
        assert t[x] == s[x + i];
      }
      LineEndFirst(t, h + 7, |t|);
      assert t[|t| - 1] == s[|t| - 1 + i];
      assert LastQuote(t, h + 8, |t|) == Some(|t| - 1);
  }

  lemma {:induction false} CloseAtFailsInside(s: string, t: string, i: nat, n: nat, ni: nat)
    requires Window(s, t, i) && ni == n + i
    requires CloseAt(s, ni).None?
    ensures CloseAt(t, n).None?
  {
    TailEndFailsInside(s, t, i, n);
    if n < |t| && t[n] == '}' {
      assert s[n + i] == t[n];
      TailEndFailsInside(s, t, i, n + 1);
    }
  }

  lemma {:induction false} CloseAtInside(s: string, t: string, i: nat, n: nat, ni: nat)
    requires Window(s, t, i) && ni == n + i
    requires CloseAt(s, ni).Some? && CloseAt(s, ni).value.1 == i + |t|
    ensures CloseAt(t, n) == Some((CloseAt(s, ni).value.0 - i, |t|))
  {
    if n + i < |s| && s[n + i] == '}' && TailEnd(s, n + i + 1).Some? {
      assert t[n] == s[n + i];
      TailEndInside(s, t, i, n + 1);
    } else {
      TailEndInside(s, t, i, n);
    }
  }

  /** Inside a window that ends on a non-space, a run of spaces ends where
      it ends on the whole text. */
  lemma {:induction false} SpaceEndInside(s: string, t: string, i: nat, j: nat)
    requires Window(s, t, i) && EndsOnNonSpace(t) && j < |t|
    ensures SpaceEnd(s, j + i) == SpaceEnd(t, j) + i
    decreases |t| - j
  {
    assert t[j] == s[j + i];
    if IsSpace(t[j]) {
      SpaceEndInside(s, t, i, j + 1);
      assert j + 1 + i == (j + i) + 1;
    }
  }

  /** A combination tried in the window, short of its end, is the same
      combination shifted on the whole text ... */
  lemma {:induction false} TriedInside(s: string, t: string, i: nat, b: nat, bi: nat, v: (nat, nat, nat), w: (nat, nat, nat))
    requires Window(s, t, i) && EndsOnNonSpace(t) && b < |t| && bi == b + i
    requires v.0 + i == w.0 && v.1 + i == w.1 && v.2 + i == w.2
    requires Tried(t, b, v.0, v.1, v.2) && v.1 < |t|
    ensures Tried(s, bi, w.0, w.1, w.2)
  {
    SpaceEndInside(s, t, i, b);
    SpaceEndInside(s, t, i, v.1);
  }

  /** ... and the other way round. */
  lemma {:induction false} TriedOutside(s: string, t: string, i: nat, b: nat, bi: nat, v: (nat, nat, nat), w: (nat, nat, nat))
    requires Window(s, t, i) && EndsOnNonSpace(t) && b < |t| && bi == b + i
    requires v.0 + i == w.0 && v.1 + i == w.1 && v.2 + i == w.2
    requires Tried(s, bi, w.0, w.1, w.2) && v.2 < |t|
    ensures Tried(t, b, v.0, v.1, v.2)
  {
    SpaceEndInside(s, t, i, b);
    SpaceEndInside(s, t, i, v.1);
  }

  /** When every combination fails on the whole text, every combination
      fails in the window. */
  lemma {:induction false} FailsInside(s: string, t: string, i: nat, b: nat, bi: nat)
    requires Window(s, t, i) && EndsOnNonSpace(t) && b < |t| && bi == b + i
    requires forall m, g, n :: Tried(s, bi, m, g, n) ==> CloseAt(s, n).None?
    ensures forall m, g, n :: Tried(t, b, m, g, n) ==> CloseAt(t, n).None?
  {
    forall m: nat, g: nat, n: nat | Tried(t, b, m, g, n) && n < |t| ensures CloseAt(t, n).None? {
      TriedInside(s, t, i, b, bi, (m, g, n), (m + i, g + i, n + i));
      CloseAtFailsInside(s, t, i, n, n + i);
    }
  }

  /** A search that fails on the whole text fails in the window. */
  lemma {:induction false} StartFailsInside(s: string, t: string, i: nat, b: nat)
    requires Window(s, t, i) && EndsOnNonSpace(t) && b < |t|
    requires Start(s, b + i).None?
    ensures Start(t, b).None?
  {
    StartNone(s, b + i);
    FailsInside(s, t, i, b, b + i);
    StartNone(t, b);
  }

  /** Every combination the window tries before a shifted first success
      fails. */
  lemma {:induction false} EarlierFailInside(s: string, t: string, i: nat, b: nat, bi: nat, w: (nat, nat, nat), v: (nat, nat, nat))
    requires Window(s, t, i) && EndsOnNonSpace(t) && b < |t| && bi == b + i
    requires FirstTried(s, bi, w) && v.0 + i == w.0 && v.1 + i == w.1 && v.2 + i == w.2
    ensures forall m, g, n :: Tried(t, b, m, g, n) && Earlier(m, g, n, v.0, v.1, v.2) ==> CloseAt(t, n).None?
  {
    forall m: nat, g: nat, n: nat | Tried(t, b, m, g, n) && Earlier(m, g, n, v.0, v.1, v.2) && n < |t|
      ensures CloseAt(t, n).None?
    {
      EarlierFailOne(s, t, i, b, bi, w, v, (m, g, n), (m + i, g + i, n + i));
    }
  }

  lemma {:induction false} EarlierFailOne(s: string, t: string, i: nat, b: nat, bi: nat, w: (nat, nat, nat), v: (nat, nat, nat),
                       x: (nat, nat, nat), y: (nat, nat, nat))
    requires Window(s, t, i) && EndsOnNonSpace(t) && b < |t| && bi == b + i
    requires FirstTried(s, bi, w) && v.0 + i == w.0 && v.1 + i == w.1 && v.2 + i == w.2
    requires x.0 + i == y.0 && x.1 + i == y.1 && x.2 + i == y.2
    requires Tried(t, b, x.0, x.1, x.2) && Earlier(x.0, x.1, x.2, v.0, v.1, v.2) && x.2 < |t|
    ensures CloseAt(t, x.2).None?
  {
    TriedInside(s, t, i, b, bi, x, y);
    assert Earlier(y.0, y.1, y.2, w.0, w.1, w.2);
    CloseAtFailsInside(s, t, i, x.2, y.2);
  }

  /** The first combination to succeed on the whole text, when its match
      ends at the end of the window, is the first to succeed in the window,
      shifted. */
  lemma {:induction false} FirstInside(s: string, t: string, i: nat, b: nat, bi: nat, w: (nat, nat, nat), v: (nat, nat, nat))
    requires Window(s, t, i) && EndsOnNonSpace(t) && b < |t| && bi == b + i
    requires FirstTried(s, bi, w) && CloseAt(s, w.2).value.1 == i + |t|
    requires v.0 + i == w.0 && v.1 + i == w.1 && v.2 + i == w.2
    ensures FirstTried(t, b, v)
    ensures CloseAt(t, v.2) == Some((CloseAt(s, w.2).value.0 - i, |t|))
  {
    TriedOutside(s, t, i, b, bi, v, w);
    CloseAtInside(s, t, i, v.2, w.2);
    EarlierFailInside(s, t, i, b, bi, w, v);
  }

  /** A search that succeeds on the whole text and ends at the end of the
      window finds the same match, shifted, in the window. */
  lemma {:induction false} StartInside(s: string, t: string, i: nat, b: nat, r: (nat, nat))
    requires Window(s, t, i) && EndsOnNonSpace(t) && b < |t|
    requires Start(s, b + i) == Some(r) && r.1 == i + |t|
    ensures Start(t, b) == Some((r.0 - i, |t|))
  {
    var bi := b + i;
    var w := StartFinds(s, bi);
    StartInsideFrom(s, t, i, b, bi, w, r);
  }

  /** The same, from the first success on the whole text. */
  lemma {:induction false} StartInsideFrom(s: string, t: string, i: nat, b: nat, bi: nat, w: (nat, nat, nat), r: (nat, nat))
    requires Window(s, t, i) && EndsOnNonSpace(t) && b < |t| && bi == b + i
    requires FirstTried(s, bi, w) && CloseAt(s, w.2) == Some(r) && r.1 == i + |t|
    ensures Start(t, b) == Some((r.0 - i, |t|))
  {
    var v := (w.0 - i, w.1 - i, w.2 - i);
    FirstInside(s, t, i, b, bi, w, v);
    StartPicks(t, b, v);
  }

  /** Searching again in the window of a match finds that match, shifted. */
  lemma {:induction false} MatchAtInside(s: string, i: nat, c: nat, e: nat)
    requires MatchAt(s, i) == Some((c, e))
    ensures i <= c <= e <= |s| && MatchAt(s[i..e], 0) == Some((c - i, e - i))
  {
    var t := s[i..e];
    MatchWindow(s, i, c, e);
    MatchAtWindow(s, t, i);
  }

  /** The text of a match is a window that starts with `import ` and ends
      on its closing quote. */
  lemma {:induction false} MatchWindow(s: string, i: nat, c: nat, e: nat)
    requires MatchAt(s, i) == Some((c, e))
    ensures i + 7 < c && c + 9 <= e <= |s|
    ensures Window(s, s[i..e], i) && EndsOnNonSpace(s[i..e]) && OccursAt(s[i..e], ImportKeyword, 0)
  {
    MatchEndsOnQuote(s, i, c, e);
    SliceWindow(s, i, e);
  }

  lemma {:induction false} MatchEndsOnQuote(s: string, i: nat, c: nat, e: nat)
    requires MatchAt(s, i) == Some((c, e))
    ensures i + 7 < c && c + 9 <= e <= |s|
    ensures OccursAt(s, ImportKeyword, i) && IsQuote(s[e - 1])
  {
    MatchAtIsMatch(s, i);
  }

  /** A slice from `import ` to a quote is such a window. */
  lemma {:induction false} SliceWindow(s: string, i: nat, e: nat)
    requires i + 7 < e <= |s| && OccursAt(s, ImportKeyword, i) && IsQuote(s[e - 1])
    ensures Window(s, s[i..e], i) && EndsOnNonSpace(s[i..e]) && OccursAt(s[i..e], ImportKeyword, 0)
  {
    var t := s[i..e];
    WindowOfSlice(s, i, e);
    assert t[|t| - 1] == s[e - 1];
    WindowSlice(s, t, i, 0, 7);
  }

  lemma {:induction false} MatchAtWindow(s: string, t: string, i: nat)
    requires Window(s, t, i) && EndsOnNonSpace(t) && OccursAt(t, ImportKeyword, 0)
    requires MatchAt(s, i).Some? && MatchAt(s, i).value.1 == i + |t|
    ensures MatchAt(t, 0) == Some((MatchAt(s, i).value.0 - i, |t|))
  {
    assert t[7] == s[7 + i];
    var r := MatchAt(s, i);
    if s[7 + i] == '{' && Start(s, 8 + i).Some? {
      assert r == Start(s, 8 + i);
      BracedInside(s, t, i, r);
    } else {
      assert r == Start(s, 7 + i);
      UnbracedInside(s, t, i, r);
    }
  }

  /** Where the braced search fails on the whole text, it fails in the
      window too, and the plain search decides. */
  lemma {:induction false} UnbracedInside(s: string, t: string, i: nat, r: Option<(nat, nat)>)
    requires Window(s, t, i) && EndsOnNonSpace(t) && OccursAt(t, ImportKeyword, 0) && 8 < |t|
    requires r == Start(s, 7 + i) && r.Some? && r.value.1 == i + |t|
    requires t[7] == s[7 + i] && (s[7 + i] == '{' ==> Start(s, 8 + i).None?)
    ensures MatchAt(t, 0) == Some((r.value.0 - i, |t|))
  {
    if s[7 + i] == '{' {
      StartFailsInside(s, t, i, 8);
    }
    PlainInside(s, t, i, r);
  }

  /** Where the braced search succeeds, it decides. */
  lemma {:induction false} BracedInside(s: string, t: string, i: nat, r: Option<(nat, nat)>)
    requires Window(s, t, i) && EndsOnNonSpace(t) && OccursAt(t, ImportKeyword, 0) && 8 < |t|
    requires r == Start(s, 8 + i) && r.Some? && r.value.1 == i + |t| && t[7] == '{'
    ensures MatchAt(t, 0) == Some((r.value.0 - i, |t|))
  {
    StartInside(s, t, i, 8, r.value);
    var q := Start(t, 8);
    assert q == Some((r.value.0 - i, |t|));
    assert MatchAt(t, 0) == q;
  }

  /** Where the braced search does not apply, the plain one decides. */
  lemma {:induction false} PlainInside(s: string, t: string, i: nat, r: Option<(nat, nat)>)
    requires Window(s, t, i) && EndsOnNonSpace(t) && OccursAt(t, ImportKeyword, 0) && 8 < |t|
    requires r == Start(s, 7 + i) && r.Some? && r.value.1 == i + |t|
    requires t[7] == '{' ==> Start(t, 8).None?
    ensures MatchAt(t, 0) == Some((r.value.0 - i, |t|))
  {
    StartInside(s, t, i, 7, r.value);
    var q := Start(t, 7);
    assert q == Some((r.value.0 - i, |t|));
    assert MatchAt(t, 0) == q;
  }

  /** What a match holds: the text between `import ` and ` from `, and
      the path between the quotes. */
  function Groups(s: string, m: Match): (string, string)
    requires m.start + 7 <= m.close && m.close + 8 <= m.end <= |s|
  {
    (s[m.start + 7..m.close], s[m.close + 7..m.end - 1])
  }

  /** `matchImport` on the text of a match gives the text between `import `
      and ` from ` and the path between the quotes. */
  lemma {:induction false} MatchImportOfMatch(s: string, m: Match)
    requires MatchAt(s, m.start) == Some((m.close, m.end))
    ensures MatchImport(s[m.start..m.end]) == Groups(s, m)
  {
    var i, c, e := m.start, m.close, m.end;
    MatchAtInside(s, i, c, e);
    var t := s[i..e];
    FoundHere(t, c - i, e - i);
    GroupsOfSlice(s, m, t, c - i, e - i, MatchImport(t));
  }

  /** The groups read from the text of a match are the match's groups. */
  lemma {:induction false} GroupsOfSlice(s: string, m: Match, t: string, c: nat, e: nat, g: (string, string))
    requires m.start + 7 <= m.close && m.close + 8 <= m.end <= |s| && t == s[m.start..m.end]
    requires c == m.close - m.start && e == m.end - m.start
    requires 7 <= c && c + 8 <= e <= |t| && g == (t[7..c], t[c + 7..e - 1])
    ensures g == Groups(s, m)
  {
    var i := m.start;
    WindowOfSlice(s, i, m.end);
    WindowSlice(s, t, i, 7, c);
    WindowSlice(s, t, i, c + 7, e - 1);
  }

  /** A match at the start of a text is its first match, and gives its
      groups. */
  lemma {:induction false} FoundHere(t: string, c: nat, e: nat)
    requires MatchAt(t, 0) == Some((c, e))
    ensures 7 <= c && c + 8 <= e <= |t|
    ensures MatchImport(t) == (t[7..c], t[c + 7..e - 1])
  {
    assert FirstMatch(t, 0) == Some(Match(0, c, e));
  }

  /** `getMatchImport`: one pair per match of the global search, in order,
      holding that match's imported names and its path. */
  lemma {:induction false} ImportPairsAreGroups(s: string)
    ensures |ImportPairs(s)| == |AllMatches(s, 0)|
    ensures forall k :: 0 <= k < |AllMatches(s, 0)| ==> ImportPairs(s)[k] == Groups(s, AllMatches(s, 0)[k])
  {
    var ms := AllMatches(s, 0);
    var ts := MatchedTexts(s);
    var ps := ImportPairs(s);
    AllMatchesMatch(s, 0);
    forall k | 0 <= k < |ms| ensures ps[k] == Groups(s, ms[k]) {
      assert ps[k] == MatchImport(ts[k]);
      assert ts[k] == s[ms[k].start..ms[k].end];
      MatchImportOfMatch(s, ms[k]);
    }
  }
}
