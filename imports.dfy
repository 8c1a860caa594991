/** Import consolidation in src/command/index.ts: `getMatchImport`, which
    collects every import statement of the generated text, and `moveImport`,
    which removes them all and puts them back, one per line, right after the
    line that opens the script.

    Both use the regular expression
    `import {?\s*([\w\W]+?)\s*}? from ['"](.+)['"]`, which is written out
    below as the search the JavaScript engine performs at one start
    position. Its choices are tried depth first, in this order. First comes
    the optional `{` (taken first). Then the leading `\s*` (longest first),
    the lazy group (shortest first, at least one character and line breaks
    included), the trailing `\s*` (longest first) and the optional `}`
    (taken first). Last comes the greedy `(.+)`, which runs to the last
    quote before the end of its line. The first combination that succeeds
    is the match. */
module Imports {
  import opened Text

  const ImportKeyword: string := "import "

  /** One match: where it starts, where its ` from ` starts, and its end. */
  datatype Match = Match(start: nat, close: nat, end: nat)

  /** The last quote in `[lo, hi)`. */
  function LastQuote(s: string, lo: nat, hi: nat): (r: Option<nat>)
    requires hi <= |s|
    decreases hi
    ensures r.Some? ==> lo <= r.value < hi && IsQuote(s[r.value])
  {
    if hi <= lo then None
    else if IsQuote(s[hi - 1]) then Some(hi - 1)
    else LastQuote(s, lo, hi - 1)
  }

  /** The quote found is the last one, and when none is found there is
      none. */
  lemma {:induction false} LastQuoteIsLast(s: string, lo: nat, hi: nat)
    requires hi <= |s|
    ensures LastQuote(s, lo, hi).Some? ==> forall k :: LastQuote(s, lo, hi).value < k < hi ==> !IsQuote(s[k])
    ensures LastQuote(s, lo, hi).None? ==> forall k :: lo <= k < hi ==> !IsQuote(s[k])
    decreases hi
  {
    if lo < hi && !IsQuote(s[hi - 1]) {
      LastQuoteIsLast(s, lo, hi - 1);
    }
  }

  /** ` from ` at `h`, compared character by character. */
  predicate FromAt(s: string, h: nat) {
    h + 6 <= |s| && s[h] == ' ' && s[h + 1] == 'f' && s[h + 2] == 'r' && s[h + 3] == 'o'
    && s[h + 4] == 'm' && s[h + 5] == ' '
  }

  /** `s[h..e]` is ` from `, a quote, a non-empty run of one line and a
      quote, and that closing quote is the last one on the line: the greedy
      `(.+)` leaves no later quote it could have reached. */
  predicate TailMatches(s: string, h: nat, e: nat) {
    h + 9 <= e <= |s| && FromAt(s, h) && IsQuote(s[h + 6]) && IsQuote(s[e - 1])
    && (forall k :: h + 7 <= k < e - 1 ==> !IsLineTerminator(s[k]))
    && (forall k :: e - 1 < k < LineEnd(s, h + 7) ==> !IsQuote(s[k]))
  }

  /** ` from ['"](.+)['"]` at `h`: the end of the match, after the last
      quote that closes a non-empty run of the same line. */
  function TailEnd(s: string, h: nat): (r: Option<nat>)
    ensures r.Some? ==> h + 9 <= r.value <= |s|
  {
    if h + 8 <= |s| && FromAt(s, h) && IsQuote(s[h + 6]) then
      match LastQuote(s, h + 8, LineEnd(s, h + 7))
      case None => None
      case Some(k) => Some(k + 1)
    else None
  }

  /** The tail found is a tail, and when none is found there is none. */
  lemma {:induction false} TailEndIsTail(s: string, h: nat)
    ensures TailEnd(s, h).Some? ==> TailMatches(s, h, TailEnd(s, h).value)
    ensures TailEnd(s, h).None? ==> forall e :: !TailMatches(s, h, e)
  {
    if h + 8 <= |s| {
      LineEndRun(s, h + 7);
      LastQuoteIsLast(s, h + 8, LineEnd(s, h + 7));
    }
    forall e ensures TailEnd(s, h).None? ==> !TailMatches(s, h, e) {
      TailExcludes(s, h, e);
    }
  }

  /** A tail ending at `e` leaves a quote at `e - 1` that `TailEnd` sees. */
  lemma {:induction false} TailExcludes(s: string, h: nat, e: nat)
    ensures TailMatches(s, h, e) ==> TailEnd(s, h).Some?
  {
    if h + 9 <= e <= |s| && FromAt(s, h) && IsQuote(s[h + 6])
       && (forall k :: h + 7 <= k < e - 1 ==> !IsLineTerminator(s[k])) {
      var le := LineEnd(s, h + 7);
      if IsQuote(s[e - 1]) {
        assert !IsLineTerminator(s[e - 1]);
        assert e - 1 < le;
        LastQuoteIsLast(s, h + 8, le);
      }
    }
  }

  /** `}?` at `n`, then the tail: gives where ` from ` starts and the end. */
  function CloseAt(s: string, n: nat): (r: Option<(nat, nat)>)
    ensures r.Some? ==> n <= r.value.0 <= n + 1 && r.value.0 + 9 <= r.value.1 <= |s|
    ensures r.Some? && r.value.0 == n + 1 ==> s[n] == '}'
  {
    var plain := match TailEnd(s, n) case None => None case Some(e) => Some((n, e));
    if n < |s| && s[n] == '}' then
      match TailEnd(s, n + 1)
      case Some(e) => Some((n + 1, e))
      case None => plain
    else plain
  }

  /** How far the trailing `\s*` after a group ending at `g` can reach. */
  function Top(s: string, g: nat): (r: nat)
    ensures g <= r
    ensures g <= |s| ==> r <= |s|
  {
    if g <= |s| then SpaceEnd(s, g) else g
  }

  /** The backtracking search, from the state where the leading `\s*`
      (started at `b`) ends at `m`, the lazy group `s[m..g]` ends at `g` and
      the trailing `\s*` ends at `n`. A failed `}?` and tail first gives
      back one trailing space, then widens the group by one character (whose
      trailing spaces are again tried longest first), and, once the group
      has reached the end of the text, gives back one leading space and
      starts again with a one-character group. */
  function Search(s: string, b: nat, m: nat, g: nat, n: nat): (r: Option<(nat, nat)>)
    requires b <= m <= |s| && m < g <= n && g <= |s| + 1
    ensures r.Some? ==> b < r.value.0 && r.value.0 + 9 <= r.value.1 <= |s|
    decreases m, |s| + 1 - g, n
  {
    if g <= |s| && CloseAt(s, n).Some? then CloseAt(s, n)
    else if g <= |s| && g < n then Search(s, b, m, g, n - 1)
    else if g < |s| then Search(s, b, m, g + 1, Top(s, g + 1))
    else if b < m then Search(s, b, m - 1, m, Top(s, m))
    else None
  }

  /** The search for `\s*([\w\W]+?)\s*}? from ['"](.+)['"]` from `b`. */
  function Start(s: string, b: nat): (r: Option<(nat, nat)>)
    requires b <= |s|
    ensures r.Some? ==> b < r.value.0 && r.value.0 + 9 <= r.value.1 <= |s|
  {
    var m := SpaceEnd(s, b);
    Search(s, b, m, m + 1, Top(s, m + 1))
  }

  /** The combination `(m2, g2, n2)` is among those the search tries from
      the state `(m, g, n)` on. */
  predicate After(s: string, b: nat, m: nat, g: nat, n: nat, m2: nat, g2: nat, n2: nat) {
    && g2 <= |s| && g2 <= n2
    && (|| (m2 == m && g2 == g && n2 <= n)
        || (m2 == m && g < g2 && n2 <= SpaceEnd(s, g2))
        || (b <= m2 < m && m2 < g2 && n2 <= SpaceEnd(s, g2)))
  }

  /** The search tries `(m1, g1, n1)` before `(m2, g2, n2)`: more leading
      spaces first, then a shorter group, then more trailing spaces. */
  predicate Earlier(m1: nat, g1: nat, n1: nat, m2: nat, g2: nat, n2: nat) {
    m1 > m2 || (m1 == m2 && (g1 < g2 || (g1 == g2 && n1 > n2)))
  }

  /** A combination the search from `b` tries: the leading spaces end at
      `m`, the group `s[m..g]` has at least one character, and the trailing
      spaces end at `n`. */
  predicate Tried(s: string, b: nat, m: nat, g: nat, n: nat) {
    b <= |s| && b <= m <= SpaceEnd(s, b) && m < g <= |s| && g <= n <= SpaceEnd(s, g)
  }

  /** Every combination the search still has to try from `(m, g, n)` fails
      at `}?` and the tail. */
  ghost predicate AllFail(s: string, b: nat, m: nat, g: nat, n: nat) {
    forall m2, g2, n2 :: After(s, b, m, g, n, m2, g2, n2) ==> CloseAt(s, n2).None?
  }

  /** The search fails exactly when every combination it tries fails. */
  lemma {:induction false} SearchNone(s: string, b: nat, m: nat, g: nat, n: nat)
    requires b <= m <= |s| && m < g <= n && g <= |s| + 1
    ensures Search(s, b, m, g, n).None? <==> AllFail(s, b, m, g, n)
    decreases m, |s| + 1 - g, n
  {
    if g <= |s| && CloseAt(s, n).Some? {
      assert After(s, b, m, g, n, m, g, n);
    } else if g <= |s| && g < n {
      var n1 := n - 1;
      assert Search(s, b, m, g, n) == Search(s, b, m, g, n1);
      SearchNone(s, b, m, g, n1);
      FailFewerTrailing(s, b, m, g, n, n1);
    } else if g < |s| {
      var g1, t := g + 1, Top(s, g + 1);
      assert Search(s, b, m, g, n) == Search(s, b, m, g1, t);
      SearchNone(s, b, m, g1, t);
      FailLongerGroup(s, b, m, g, n, g1, t);
    } else if b < m {
      var m1, t := m - 1, Top(s, m);
      assert Search(s, b, m, g, n) == Search(s, b, m1, m, t);
      SearchNone(s, b, m1, m, t);
      FailFewerLeading(s, b, m, g, n, m1, t);
    } else {
      forall m2, g2, n2 | After(s, b, m, g, n, m2, g2, n2) ensures CloseAt(s, n2).None? {
        assert m2 == m && g2 == g && n2 == n;
      }
    }
  }

  /** Giving back a trailing space that failed leaves the same failures. */
  lemma {:induction false} FailFewerTrailing(s: string, b: nat, m: nat, g: nat, n: nat, n1: nat)
    requires b <= m <= |s| && m < g <= n1 && n == n1 + 1 && g <= |s| && CloseAt(s, n).None?
    ensures AllFail(s, b, m, g, n) <==> AllFail(s, b, m, g, n1)
  {
    if AllFail(s, b, m, g, n1) {
      forall m2, g2, n2 | After(s, b, m, g, n, m2, g2, n2) ensures CloseAt(s, n2).None? {
        if !(m2 == m && g2 == g && n2 == n) {
          assert After(s, b, m, g, n1, m2, g2, n2);
        }
      }
    }
    if AllFail(s, b, m, g, n) {
      forall m2, g2, n2 | After(s, b, m, g, n1, m2, g2, n2) ensures CloseAt(s, n2).None? {
        assert After(s, b, m, g, n, m2, g2, n2);
      }
    }
  }

  /** Widening the group after its last trailing space failed leaves the
      same failures. */
  lemma {:induction false} FailLongerGroup(s: string, b: nat, m: nat, g: nat, n: nat, g1: nat, t: nat)
    requires b <= m <= |s| && m < g <= n && g1 == g + 1 && g1 <= |s| && n <= g && CloseAt(s, n).None?
    requires t == Top(s, g1)
    ensures AllFail(s, b, m, g, n) <==> AllFail(s, b, m, g1, t)
  {
    assert t == SpaceEnd(s, g1);
    if AllFail(s, b, m, g1, t) {
      forall m2, g2, n2 | After(s, b, m, g, n, m2, g2, n2) ensures CloseAt(s, n2).None? {
        if m2 == m && g2 == g {
          assert n2 == n;
        } else {
          assert After(s, b, m, g1, t, m2, g2, n2);
        }
      }
    }
    if AllFail(s, b, m, g, n) {
      forall m2, g2, n2 | After(s, b, m, g1, t, m2, g2, n2) ensures CloseAt(s, n2).None? {
        assert After(s, b, m, g, n, m2, g2, n2);
      }
    }
  }

  /** Giving back a leading space once the group reached the end leaves
      the same failures. */
  lemma {:induction false} FailFewerLeading(s: string, b: nat, m: nat, g: nat, n: nat, m1: nat, t: nat)
    requires b <= m1 && m == m1 + 1 && m <= |s| && m < g <= n && g <= |s| + 1 && |s| <= g
    requires g <= |s| ==> n <= g && CloseAt(s, n).None?
    requires t == Top(s, m)
    ensures AllFail(s, b, m, g, n) <==> AllFail(s, b, m1, m, t)
  {
    assert t == SpaceEnd(s, m);
    if AllFail(s, b, m1, m, t) {
      forall m2, g2, n2 | After(s, b, m, g, n, m2, g2, n2) ensures CloseAt(s, n2).None? {
        if m2 != m {
          assert After(s, b, m1, m, t, m2, g2, n2);
        }
      }
    }
    if AllFail(s, b, m, g, n) {
      forall m2, g2, n2 | After(s, b, m1, m, t, m2, g2, n2) ensures CloseAt(s, n2).None? {
        assert After(s, b, m, g, n, m2, g2, n2);
      }
    }
  }

  /** What the search finds is the first combination, in the order it
      tries them, whose `}?` and tail match. */
  ghost predicate FirstSuccess(s: string, b: nat, m: nat, g: nat, n: nat, w: (nat, nat, nat)) {
    && After(s, b, m, g, n, w.0, w.1, w.2)
    && CloseAt(s, w.2).Some?
    && forall m2, g2, n2 {:trigger After(s, b, m, g, n, m2, g2, n2)} ::
         After(s, b, m, g, n, m2, g2, n2) && Earlier(m2, g2, n2, w.0, w.1, w.2)
         ==> CloseAt(s, n2).None?
  }

  /** A successful search stops at the first combination that succeeds. */
  lemma {:induction false} SearchFinds(s: string, b: nat, m: nat, g: nat, n: nat) returns (w: (nat, nat, nat))
    requires b <= m <= |s| && m < g <= n && g <= |s| + 1
    requires Search(s, b, m, g, n).Some?
    ensures FirstSuccess(s, b, m, g, n, w)
    ensures Search(s, b, m, g, n) == CloseAt(s, w.2)
    decreases m, |s| + 1 - g, n
  {
    if g <= |s| && CloseAt(s, n).Some? {
      w := (m, g, n);
      assert After(s, b, m, g, n, m, g, n);
    } else if g <= |s| && g < n {
      var n1 := n - 1;
      assert Search(s, b, m, g, n) == Search(s, b, m, g, n1);
      w := SearchFinds(s, b, m, g, n1);
      FirstFewerTrailing(s, b, m, g, n, n1, w);
    } else if g < |s| {
      var g1, t := g + 1, Top(s, g + 1);
      assert Search(s, b, m, g, n) == Search(s, b, m, g1, t);
      w := SearchFinds(s, b, m, g1, t);
      FirstLongerGroup(s, b, m, g, n, g1, w);
    } else {
      var m1, t := m - 1, Top(s, m);
      assert Search(s, b, m, g, n) == Search(s, b, m1, m, t);
      w := SearchFinds(s, b, m1, m, t);
      FirstFewerLeading(s, b, m, g, n, m1, w);
    }
  }

  lemma {:induction false} FirstFewerTrailing(s: string, b: nat, m: nat, g: nat, n: nat, n1: nat, w: (nat, nat, nat))
    requires b <= m <= |s| && m < g <= n1 && n == n1 + 1 && g <= |s| && CloseAt(s, n).None?
    requires FirstSuccess(s, b, m, g, n1, w)
    ensures FirstSuccess(s, b, m, g, n, w)
  {
    assert After(s, b, m, g, n, w.0, w.1, w.2);
    forall m2, g2, n2 | After(s, b, m, g, n, m2, g2, n2) && Earlier(m2, g2, n2, w.0, w.1, w.2)
      ensures CloseAt(s, n2).None?
    {
      if !(m2 == m && g2 == g && n2 == n) {
        assert After(s, b, m, g, n1, m2, g2, n2);
      }
    }
  }

  lemma {:induction false} FirstLongerGroup(s: string, b: nat, m: nat, g: nat, n: nat, g1: nat, w: (nat, nat, nat))
    requires b <= m <= |s| && m < g <= n && g1 == g + 1 && g1 <= |s| && n <= g && CloseAt(s, n).None?
    requires FirstSuccess(s, b, m, g1, Top(s, g1), w)
    ensures FirstSuccess(s, b, m, g, n, w)
  {
    var top := Top(s, g1);
    assert top == SpaceEnd(s, g1);
    assert After(s, b, m, g, n, w.0, w.1, w.2);
    forall m2, g2, n2 | After(s, b, m, g, n, m2, g2, n2) && Earlier(m2, g2, n2, w.0, w.1, w.2)
      ensures CloseAt(s, n2).None?
    {
      if m2 == m && g2 == g {
        assert n2 == n;
      } else {
        assert After(s, b, m, g1, top, m2, g2, n2);
      }
    }
  }

  lemma {:induction false} FirstFewerLeading(s: string, b: nat, m: nat, g: nat, n: nat, m1: nat, w: (nat, nat, nat))
    requires b <= m1 && m == m1 + 1 && m <= |s| && m < g <= n && g <= |s| + 1 && |s| <= g
    requires g <= |s| ==> n <= g && CloseAt(s, n).None?
    requires FirstSuccess(s, b, m1, m, Top(s, m), w)
    ensures FirstSuccess(s, b, m, g, n, w)
  {
    assert After(s, b, m, g, n, w.0, w.1, w.2);
    forall m2, g2, n2 | After(s, b, m, g, n, m2, g2, n2) && Earlier(m2, g2, n2, w.0, w.1, w.2)
      ensures CloseAt(s, n2).None?
    {
      if m2 != m {
        assert After(s, b, m1, m, Top(s, m), m2, g2, n2);
      }
    }
  }

  /** There is only one first success. */
  lemma {:induction false} FirstUnique(s: string, b: nat, m: nat, g: nat, n: nat, v: (nat, nat, nat), w: (nat, nat, nat))
    requires FirstSuccess(s, b, m, g, n, v) && FirstSuccess(s, b, m, g, n, w)
    ensures v == w
  {
    assert !Earlier(v.0, v.1, v.2, w.0, w.1, w.2);
    assert !Earlier(w.0, w.1, w.2, v.0, v.1, v.2);
  }

  /** Whatever combination is the first to succeed, the search finds it. */
  lemma {:induction false} SearchPicks(s: string, b: nat, m: nat, g: nat, n: nat, w: (nat, nat, nat))
    requires b <= m <= |s| && m < g <= n && g <= |s| + 1
    requires FirstSuccess(s, b, m, g, n, w)
    ensures Search(s, b, m, g, n) == CloseAt(s, w.2)
  {
    SearchNone(s, b, m, g, n);
    assert !AllFail(s, b, m, g, n);
    var v := SearchFinds(s, b, m, g, n);
    FirstUnique(s, b, m, g, n, v, w);
  }

  /** From the start every combination is still to be tried. */
  lemma {:induction false} StartTried(s: string, b: nat, m: nat, g: nat, t: nat)
    requires b <= |s| && m == SpaceEnd(s, b) && g == m + 1 && t == Top(s, g)
    ensures forall m2, g2, n2 :: After(s, b, m, g, t, m2, g2, n2) <==> Tried(s, b, m2, g2, n2)
  {
    forall m2, g2, n2 | Tried(s, b, m2, g2, n2)
      ensures After(s, b, m, g, t, m2, g2, n2)
    {
      if m2 == m && g2 == g {
        assert t == SpaceEnd(s, g2);
      }
    }
  }

  /** The first combination, in search order, whose `}?` and tail match. */
  ghost predicate FirstTried(s: string, b: nat, w: (nat, nat, nat)) {
    && Tried(s, b, w.0, w.1, w.2)
    && CloseAt(s, w.2).Some?
    && forall m2, g2, n2 {:trigger Tried(s, b, m2, g2, n2)} ::
         Tried(s, b, m2, g2, n2) && Earlier(m2, g2, n2, w.0, w.1, w.2) ==> CloseAt(s, n2).None?
  }

  /** The search from `b` fails exactly when no combination succeeds. */
  lemma {:induction false} StartNone(s: string, b: nat)
    requires b <= |s|
    ensures Start(s, b).None? <==> forall m, g, n :: Tried(s, b, m, g, n) ==> CloseAt(s, n).None?
  {
    var m := SpaceEnd(s, b);
    var g := m + 1;
    var t := Top(s, g);
    assert Start(s, b) == Search(s, b, m, g, t);
    SearchNone(s, b, m, g, t);
    StartTried(s, b, m, g, t);
    if Start(s, b).None? {
      forall m2, g2, n2 | Tried(s, b, m2, g2, n2) ensures CloseAt(s, n2).None? {
        assert After(s, b, m, g, t, m2, g2, n2);
      }
    } else {
      var m2, g2, n2 :| After(s, b, m, g, t, m2, g2, n2) && CloseAt(s, n2).Some?;
      assert Tried(s, b, m2, g2, n2);
    }
  }

  /** A search from `b` that succeeds stops at the first combination that
      succeeds ... */
  lemma {:induction false} StartFinds(s: string, b: nat) returns (w: (nat, nat, nat))
    requires b <= |s| && Start(s, b).Some?
    ensures FirstTried(s, b, w) && Start(s, b) == CloseAt(s, w.2)
  {
    var m := SpaceEnd(s, b);
    var g := m + 1;
    var t := Top(s, g);
    assert Start(s, b) == Search(s, b, m, g, t);
    w := SearchFinds(s, b, m, g, t);
    StartTried(s, b, m, g, t);
    assert Tried(s, b, w.0, w.1, w.2);
    forall m2, g2, n2 | Tried(s, b, m2, g2, n2) && Earlier(m2, g2, n2, w.0, w.1, w.2)
      ensures CloseAt(s, n2).None?
    {
      assert After(s, b, m, g, t, m2, g2, n2);
    }
  }

  /** ... and whichever that is, the search finds it. */
  lemma {:induction false} StartPicks(s: string, b: nat, w: (nat, nat, nat))
    requires b <= |s| && FirstTried(s, b, w)
    ensures Start(s, b) == CloseAt(s, w.2)
  {
    var m := SpaceEnd(s, b);
    var g := m + 1;
    var t := Top(s, g);
    assert Start(s, b) == Search(s, b, m, g, t);
    StartTried(s, b, m, g, t);
    assert After(s, b, m, g, t, w.0, w.1, w.2);
    forall m2, g2, n2 | After(s, b, m, g, t, m2, g2, n2) && Earlier(m2, g2, n2, w.0, w.1, w.2)
      ensures CloseAt(s, n2).None?
    {
      assert Tried(s, b, m2, g2, n2);
    }
    SearchPicks(s, b, m, g, t, w);
  }

  /** The match that starts at `i`, if any: where ` from ` starts and the
      end. The search with the `{` taken comes first. */
  function MatchAt(s: string, i: nat): (r: Option<(nat, nat)>)
    ensures r.Some? ==> OccursAt(s, ImportKeyword, i)
    ensures r.Some? ==> i + 7 < r.value.0 && r.value.0 + 9 <= r.value.1 <= |s|
  {
    if !OccursAt(s, ImportKeyword, i) then None
    else
      var a := i + 7;
      var unbraced := Start(s, a);
      if a < |s| && s[a] == '{' then
        match Start(s, a + 1)
        case Some(x) => Some(x)
        case None => unbraced
      else unbraced
  }

  /** What a search from `b` finds is a tail. */
  lemma {:induction false} StartIsTail(s: string, b: nat)
    requires b <= |s| && Start(s, b).Some?
    ensures TailMatches(s, Start(s, b).value.0, Start(s, b).value.1)
  {
    var w := StartFinds(s, b);
    assert TailEnd(s, Start(s, b).value.0) == Some(Start(s, b).value.1);
    TailEndIsTail(s, Start(s, b).value.0);
  }

  /** What a match is: `import `, a group of at least one character, and a
      tail ` from 'path'` whose closing quote is the last one on its line. */
  lemma {:induction false} MatchAtIsMatch(s: string, i: nat)
    requires MatchAt(s, i).Some?
    ensures OccursAt(s, ImportKeyword, i)
    ensures i + 7 < MatchAt(s, i).value.0
    ensures TailMatches(s, MatchAt(s, i).value.0, MatchAt(s, i).value.1)
  {
    var a := i + 7;
    if a < |s| && s[a] == '{' && Start(s, a + 1).Some? {
      StartIsTail(s, a + 1);
    } else {
      StartIsTail(s, a);
    }
  }

  /** One way the expression can match at `i`: the leading `\s*` (after
      the `{` when one is taken) ends at `m`, the group is `s[m..g]`, the
      trailing `\s*` ends at `n`, and `}?` and the tail match from `n`. */
  predicate Choice(s: string, i: nat, m: nat, g: nat, n: nat) {
    && OccursAt(s, ImportKeyword, i)
    && (Tried(s, i + 7, m, g, n) || (i + 7 < |s| && s[i + 7] == '{' && Tried(s, i + 8, m, g, n)))
    && CloseAt(s, n).Some?
  }

  /** The search at `i` fails exactly when no way to match exists. */
  lemma {:induction false} MatchAtNone(s: string, i: nat)
    ensures MatchAt(s, i).None? <==> forall m, g, n :: !Choice(s, i, m, g, n)
  {
    if OccursAt(s, ImportKeyword, i) {
      var a := i + 7;
      var braced := a < |s| && s[a] == '{';
      StartNone(s, a);
      if braced {
        StartNone(s, a + 1);
      }
      if MatchAt(s, i).None? {
        assert Start(s, a).None?;
        assert braced ==> Start(s, a + 1).None?;
        forall m, g, n ensures !Choice(s, i, m, g, n) {
          if Tried(s, a, m, g, n) {
            assert CloseAt(s, n).None?;
          } else if braced && Tried(s, a + 1, m, g, n) {
            assert CloseAt(s, n).None?;
          }
        }
      } else if Start(s, a).Some? {
        var m, g, n :| Tried(s, a, m, g, n) && CloseAt(s, n).Some?;
        assert Choice(s, i, m, g, n);
      } else {
        assert braced && Start(s, a + 1).Some?;
        var m, g, n :| Tried(s, a + 1, m, g, n) && CloseAt(s, n).Some?;
        assert Choice(s, i, m, g, n);
      }
    }
  }

  /** The leftmost match at or after `p`. */
  function FirstMatch(s: string, p: nat): (r: Option<Match>)
    decreases |s| - p
    ensures r.Some? ==> p <= r.value.start && MatchAt(s, r.value.start) == Some((r.value.close, r.value.end))
    ensures r.Some? ==> r.value.start + 7 < r.value.close && r.value.close + 9 <= r.value.end <= |s|
    ensures r.Some? ==> forall q: nat :: p <= q < r.value.start ==> MatchAt(s, q).None?
    ensures r.None? ==> forall q: nat :: p <= q ==> MatchAt(s, q).None?
  {
    if p + 7 > |s| then None
    else match MatchAt(s, p)
      case Some(x) => Some(Match(p, x.0, x.1))
      case None => FirstMatch(s, p + 1)
  }

  /** The matches a global search collects from `p` on, in order, each one
      starting where the previous one ended or later. */
  function AllMatches(s: string, p: nat): (ms: seq<Match>)
    requires p <= |s|
    decreases |s| - p
    ensures forall k :: 0 <= k < |ms| ==>
      p <= ms[k].start && ms[k].start + 7 < ms[k].close && ms[k].close + 9 <= ms[k].end <= |s|
    ensures forall k :: 0 <= k < |ms| - 1 ==> ms[k].end <= ms[k + 1].start
  {
    match FirstMatch(s, p)
    case None => []
    case Some(m) => [m] + AllMatches(s, m.end)
  }

  /** Each match of the global search is a match of the expression at its
      start. */
  lemma {:induction false} AllMatchesMatch(s: string, p: nat)
    requires p <= |s|
    ensures forall k :: 0 <= k < |AllMatches(s, p)| ==>
      MatchAt(s, AllMatches(s, p)[k].start) == Some((AllMatches(s, p)[k].close, AllMatches(s, p)[k].end))
    decreases |s| - p
  {
    match FirstMatch(s, p)
    case None =>
    case Some(m) =>
      AllMatchesMatch(s, m.end);
      var ms := AllMatches(s, p);
      assert ms == [m] + AllMatches(s, m.end);
      forall k | 0 <= k < |ms| ensures MatchAt(s, ms[k].start) == Some((ms[k].close, ms[k].end)) {
        if k > 0 {
          assert ms[k] == AllMatches(s, m.end)[k - 1];
        }
      }
  }

  /** A text without `import ` has no match. */
  lemma {:induction false} NoKeywordNoMatch(s: string, p: nat)
    requires p <= |s|
    requires !Contains(s, ImportKeyword)
    ensures AllMatches(s, p) == []
  {
    assert forall q: nat :: MatchAt(s, q).None?;
  }

  /** `str.match(importRegexAll) ?? []`: the text of every match. */
  function MatchedTexts(s: string): (ts: seq<string>)
    ensures |ts| == |AllMatches(s, 0)|
  {
    var ms := AllMatches(s, 0);
    seq(|ms|, k requires 0 <= k < |ms| => s[ms[k].start..ms[k].end])
  }

  /** `matchImport`: the two groups of the first match of the single-match
      expression, whose first group also takes the braces and spaces, or two
      empty texts when it does not match. */
  function MatchImport(item: string): (r: (string, string))
    ensures FirstMatch(item, 0).None? ==> r == ("", "")
  {
    match FirstMatch(item, 0)
    case None => ("", "")
    case Some(m) => (item[m.start + 7..m.close], item[m.close + 7..m.end - 1])
  }

  /** The groups of each matched text, in order. */
  function PairsOf(ts: seq<string>): (ps: seq<(string, string)>)
    ensures |ps| == |ts|
  {
    seq(|ts|, k requires 0 <= k < |ts| => MatchImport(ts[k]))
  }

  /** The pairs `getMatchImport` returns: one per match, in match order. */
  function ImportPairs(s: string): (ps: seq<(string, string)>)
    ensures |ps| == |AllMatches(s, 0)|
  {
    PairsOf(MatchedTexts(s))
  }

  /** The push loop over the matched texts. */
  method PushPairs(ts: seq<string>) returns (result: seq<(string, string)>)
    ensures result == PairsOf(ts)
  {
    result := [];
    for i := 0 to |ts|
      invariant result == PairsOf(ts[..i])
    {
      assert ts[..i + 1] == ts[..i] + [ts[i]];
      result := result + [MatchImport(ts[i])];
    }
    assert ts[..|ts|] == ts;
  }

  /** `getMatchImport`: pushes the groups of every match. */
  method GetMatchImport(s: string) returns (result: seq<(string, string)>)
    ensures result == ImportPairs(s)
  {
    var matchAll := MatchedTexts(s);
    result := PushPairs(matchAll);
  }

  /** Without `import ` in the text there is no pair. */
  lemma {:induction false} NoKeywordNoPairs(s: string)
    requires !Contains(s, ImportKeyword)
    ensures ImportPairs(s) == []
  {
    NoKeywordNoMatch(s, 0);
  }

  /** The text with every match removed (`replace(importRegexAll, '')`):
      it is shorter exactly when there is a match. */
  function Stripped(s: string, p: nat): (r: string)
    requires p <= |s|
    ensures |r| <= |s| - p
    ensures |r| == |s| - p ==> FirstMatch(s, p).None?
    decreases |s| - p
  {
    match FirstMatch(s, p)
    case None => s[p..]
    case Some(m) => s[p..m.start] + Stripped(s, m.end)
  }

  /** The removal keeps exactly the text between the matches, in order. */
  function Gaps(s: string, p: nat, ms: seq<Match>): (gs: seq<string>)
    requires p <= |s|
    requires forall k :: 0 <= k < |ms| ==> ms[k].start <= ms[k].end <= |s|
    requires forall k :: 0 <= k < |ms| - 1 ==> ms[k].end <= ms[k + 1].start
    requires |ms| > 0 ==> p <= ms[0].start
    ensures |gs| == |ms| + 1
    decreases |ms|
  {
    if |ms| == 0 then [s[p..]] else [s[p..ms[0].start]] + Gaps(s, ms[0].end, ms[1..])
  }

  lemma {:induction false} StrippedKeepsGaps(s: string, p: nat)
    requires p <= |s|
    ensures var ms := AllMatches(s, p); Stripped(s, p) == Join(Gaps(s, p, ms), "")
    decreases |s| - p
  {
    var ms := AllMatches(s, p);
    match FirstMatch(s, p)
    case None =>
    case Some(m) =>
      StrippedKeepsGaps(s, m.end);
      var rest := Gaps(s, m.end, ms[1..]);
      assert ms[1..] == AllMatches(s, m.end);
      assert Gaps(s, p, ms) == [s[p..m.start]] + rest;
      JoinHead(s[p..m.start], rest, "");
      assert s[p..m.start] + "" == s[p..m.start];
  }

  /** An import line of `importArr`: `import `, the names, ` from `, and
      the path in single quotes. */
  function ImportLine(pair: (string, string)): (l: string)
    ensures ImportKeyword <= l && l[|l| - 1] == '\''
    ensures |l| == |pair.0| + |pair.1| + 15
  {
    ImportKeyword + pair.0 + " from '" + pair.1 + "'"
  }

  /** `importArr`: an import line per pair. */
  function ImportLinesOf(pairs: seq<(string, string)>): (ls: seq<string>)
    ensures |ls| == |pairs|
  {
    seq(|pairs|, k requires 0 <= k < |pairs| => ImportLine(pairs[k]))
  }

  /** The import lines `moveImport` rebuilds. */
  function ImportLines(s: string): (ls: seq<string>)
    ensures |ls| == |AllMatches(s, 0)|
  {
    ImportLinesOf(ImportPairs(s))
  }

  /** `findIndex(i => i.includes(pat))`, -1 when no line has it. */
  function FirstLineWith(lines: seq<string>, pat: string): (j: int)
    ensures -1 <= j < |lines|
    ensures j >= 0 ==> Contains(lines[j], pat) && forall k :: 0 <= k < j ==> !Contains(lines[k], pat)
    ensures j == -1 ==> forall k :: 0 <= k < |lines| ==> !Contains(lines[k], pat)
    decreases |lines|
  {
    if |lines| == 0 then -1
    else if Contains(lines[0], pat) then 0
    else
      var r := FirstLineWith(lines[1..], pat);
      if r == -1 then -1 else r + 1
  }

  /** The `findIndex` loop. */
  method FindLineWith(lines: seq<string>, pat: string) returns (j: int)
    ensures j == FirstLineWith(lines, pat)
  {
    j := 0;
    while j < |lines| && !Contains(lines[j], pat)
      invariant 0 <= j <= |lines|
      invariant forall k :: 0 <= k < j ==> !Contains(lines[k], pat)
    {
      j := j + 1;
    }
    if j == |lines| {
      j := -1;
    }
  }

  /** `moveImport`: with two imports or more, all of them are removed and
      put back as one block of lines right after the first line holding
      `<script`, or at the top when there is none. */
  function Consolidated(s: string): (r: string)
    ensures |ImportLines(s)| <= 1 ==> r == s
  {
    var imports := ImportLines(s);
    if |imports| <= 1 then s
    else
      Moved(Split(Stripped(s, 0), '\n'), imports)
  }

  /** The lines with the import block spliced in after the script line:
      the result starts with the lines up to the script line, and the
      block comes right after them. */
  function Moved(lines: seq<string>, imports: seq<string>): (r: string)
    ensures var at := FirstLineWith(lines, "<script") + 1;
      (if at == 0 then "" else Join(lines[..at], "\n") + "\n") + Join(imports, "\n") <= r
  {
    var at := FirstLineWith(lines, "<script") + 1;
    MovedPrefix(lines[..at], Join(imports, "\n"), lines[at..]);
    Join(lines[..at] + [Join(imports, "\n")] + lines[at..], "\n")
  }

  lemma {:induction false} MovedPrefix(before: seq<string>, block: string, after: seq<string>)
    ensures (if |before| == 0 then "" else Join(before, "\n") + "\n") + block
         <= Join(before + [block] + after, "\n")
  {
    JoinStartsWith(block, after, "\n");
    if |before| == 0 {
      assert before + [block] + after == [block] + after;
    } else {
      assert before + [block] + after == before + ([block] + after);
      JoinAppend(before, [block] + after, "\n");
    }
  }

  /** Splicing a text into separator-free lines: splitting the join again
      gives the lines back around the pieces of the spliced text. */
  lemma {:induction false} SpliceLines(lines: seq<string>, at: nat, block: string)
    requires at <= |lines|
    requires forall k :: 0 <= k < |lines| ==> '\n' !in lines[k]
    ensures Split(Join(lines[..at] + [block] + lines[at..], "\n"), '\n')
         == lines[..at] + Split(block, '\n') + lines[at..]
  {
    var before, after := lines[..at], lines[at..];
    var all := before + [block] + after;
    SplitJoin(all, '\n');
    SplitEachAppend(before + [block], after, '\n');
    SplitEachAppend(before, [block], '\n');
    SplitEachFree(before, '\n');
    SplitEachFree(after, '\n');
    SplitEachOne(block, '\n');
  }

  /** The lines of a block move: the lines around the script line, with
      the lines of every import line in between. */
  lemma {:induction false} MovedLines(lines: seq<string>, imports: seq<string>)
    requires |imports| > 0
    requires forall k :: 0 <= k < |lines| ==> '\n' !in lines[k]
    ensures var at := FirstLineWith(lines, "<script") + 1;
      Split(Moved(lines, imports), '\n') == lines[..at] + SplitEach(imports, '\n') + lines[at..]
  {
    var at := FirstLineWith(lines, "<script") + 1;
    SpliceLines(lines, at, Join(imports, "\n"));
    SplitJoin(imports, '\n');
  }

  /** The lines of the result: the lines of the stripped text in their
      order, with the lines of the import block in between, right after the
      script line. */
  lemma {:induction false} ConsolidatedLines(s: string)
    requires |ImportLines(s)| > 1
    ensures var lines := Split(Stripped(s, 0), '\n');
      var at := FirstLineWith(lines, "<script") + 1;
      Split(Consolidated(s), '\n')
        == lines[..at] + SplitEach(ImportLines(s), '\n') + lines[at..]
  {
    var stripped := Stripped(s, 0);
    var lines := Split(stripped, '\n');
    var imports := ImportLines(s);
    assert Consolidated(s) == Moved(lines, imports);
    MovedSplitLines(stripped, imports);
  }

  lemma {:induction false} MovedSplitLines(stripped: string, imports: seq<string>)
    requires |imports| > 0
    ensures var lines := Split(stripped, '\n');
      var at := FirstLineWith(lines, "<script") + 1;
      Split(Moved(lines, imports), '\n') == lines[..at] + SplitEach(imports, '\n') + lines[at..]
  {
    SplitPiecesFree(stripped, '\n');
    MovedLines(Split(stripped, '\n'), imports);
  }

  // A second pass over a consolidated text is not a no-op: the lines the
  // first pass emptied stay, and the second pass empties the import lines
  // again and adds their line breaks once more.

  const SampleImport: string := "import a from 'b'"

  /** `import a from 'b'` ending a line matches, its group ending before
      ` from `. */
  lemma {:induction false} SampleImportAt(s: string, o: nat)
    requires o + 17 <= |s| && s[o..o + 17] == SampleImport
    requires o + 17 == |s| || s[o + 17] == '\n'
    ensures MatchAt(s, o) == Some((o + 8, o + 17))
  {
    assert forall k :: 0 <= k < 17 ==> s[o + k] == SampleImport[k];
    assert s[o + 7] == 'a' && s[o + 8] == ' ' && s[o + 9] == 'f' && s[o + 10] == 'r';
    assert s[o + 11] == 'o' && s[o + 12] == 'm' && s[o + 13] == ' ';
    assert s[o + 14] == '\'' && s[o + 15] == 'b' && s[o + 16] == '\'';
    assert s[o..o + 7] == SampleImport[..7];
    assert SampleImport[..7] == ImportKeyword;
    assert OccursAt(s, ImportKeyword, o);
    assert SpaceEnd(s, o + 8 + 1) == o + 9;
    assert SpaceEnd(s, o + 8) == o + 9;
    assert SpaceEnd(s, o + 7) == o + 7;
    assert CloseAt(s, o + 9).None?;
    LineEndFirst(s, o + 15, o + 17);
    assert LastQuote(s, o + 16, o + 17) == Some(o + 16);
    assert FromAt(s, o + 8);
    assert TailEnd(s, o + 8) == Some(o + 17);
    assert CloseAt(s, o + 8) == Some((o + 8, o + 17));
    assert Search(s, o + 7, o + 7, o + 8, o + 8) == Some((o + 8, o + 17));
    assert Search(s, o + 7, o + 7, o + 8, o + 9) == Some((o + 8, o + 17));
  }

  /** The groups of a text whose first match is a sample import. */
  lemma {:induction false} SampleGroups(item: string)
    requires FirstMatch(item, 0) == Some(Match(0, 8, 17))
    ensures MatchImport(item) == ([item[7]], [item[15]])
  {
    assert item[7..8] == [item[7]];
    assert item[15..16] == [item[15]];
  }

  /** Its groups. */
  lemma {:induction false} SamplePair()
    ensures MatchImport(SampleImport) == ("a", "b")
  {
    assert SampleImport[0..17] == SampleImport;
    SampleImportAt(SampleImport, 0);
    assert FirstMatch(SampleImport, 0) == Some(Match(0, 8, 17));
    SampleGroups(SampleImport);
  }

  /** The import line rebuilt from its groups is itself. */
  lemma {:induction false} SampleLine()
    ensures ImportLine(("a", "b")) == SampleImport
  {
    var line := ImportLine(("a", "b"));
    assert |line| == |SampleImport|;
    assert forall k :: 0 <= k < 17 ==> line[k] == SampleImport[k];
  }

  /** Two such lines, then at most six more characters starting with a line
      break: two matches, and removing them leaves the line breaks. */
  lemma {:induction false} TwoSampleMatches(s: string)
    requires 35 <= |s| < 42 && s[..17] == SampleImport && s[17] == '\n' && s[18..35] == SampleImport
    requires |s| == 35 || s[35] == '\n'
    ensures AllMatches(s, 0) == [Match(0, 8, 17), Match(18, 26, 35)]
    ensures Stripped(s, 0) == "\n" + s[35..]
  {
    assert s[0..17] == SampleImport;
    SampleImportAt(s, 0);
    SampleImportAt(s, 18);
    assert !OccursAt(s, ImportKeyword, 17);
    assert FirstMatch(s, 35) == None;
    assert FirstMatch(s, 18) == Some(Match(18, 26, 35));
    assert FirstMatch(s, 17) == Some(Match(18, 26, 35));
    assert FirstMatch(s, 0) == Some(Match(0, 8, 17));
    assert AllMatches(s, 35) == [];
    assert AllMatches(s, 17) == [Match(18, 26, 35)];
    assert Stripped(s, 17) == s[17..18] + s[35..];
  }

  lemma {:induction false} TwoSampleTexts(s: string)
    requires 35 <= |s| < 42 && s[..17] == SampleImport && s[17] == '\n' && s[18..35] == SampleImport
    requires |s| == 35 || s[35] == '\n'
    ensures MatchedTexts(s) == [SampleImport, SampleImport]
  {
    TwoSampleMatches(s);
    assert s[0..17] == SampleImport;
    var ts := MatchedTexts(s);
    assert |ts| == 2 && ts[0] == SampleImport && ts[1] == SampleImport;
  }

  /** The pairs and lines of a text matched twice. */
  lemma {:induction false} LinesOfTwice(x: string, pair: (string, string))
    requires MatchImport(x) == pair && ImportLine(pair) == x
    ensures ImportLinesOf(PairsOf([x, x])) == [x, x]
  {
    var ps := PairsOf([x, x]);
    assert ps == [pair, pair];
    var ls := ImportLinesOf(ps);
    assert ls[0] == x && ls[1] == x;
  }

  lemma {:induction false} SampleLinesOf()
    ensures ImportLinesOf(PairsOf([SampleImport, SampleImport])) == [SampleImport, SampleImport]
  {
    SamplePair();
    SampleLine();
    LinesOfTwice(SampleImport, ("a", "b"));
  }

  lemma {:induction false} TwoSampleLines(s: string)
    requires 35 <= |s| < 42 && s[..17] == SampleImport && s[17] == '\n' && s[18..35] == SampleImport
    requires |s| == 35 || s[35] == '\n'
    ensures ImportLines(s) == [SampleImport, SampleImport]
  {
    TwoSampleTexts(s);
    SampleLinesOf();
  }

  /** Without a script line the block goes on top of the empty lines. */
  lemma {:induction false} BlankLinesMoved(rest: string)
    requires rest == "" || rest == "\n\n"
    ensures Moved(Split("\n" + rest, '\n'), [SampleImport, SampleImport]) == SampleImport + "\n" + SampleImport + "\n\n" + rest
  {
    var lines := Split("\n" + rest, '\n');
    assert Split("", '\n') == [""];
    assert Split("\n", '\n') == [""] + Split("", '\n');
    if rest == "\n\n" {
      assert ("\n" + rest)[1..] == "\n\n" && "\n\n"[1..] == "\n";
      assert Split("\n\n", '\n') == [""] + Split("\n", '\n');
      assert lines == ["", "", "", ""];
    } else {
      assert "\n" + rest == "\n";
      assert lines == ["", ""];
    }
    assert forall k :: 0 <= k < |lines| ==> lines[k] == "";
    assert FirstLineWith(lines, "<script") == -1;
    assert Join([SampleImport, SampleImport], "\n") == SampleImport + "\n" + SampleImport;
    assert lines[..0] + [SampleImport + "\n" + SampleImport] + lines[0..] == [SampleImport + "\n" + SampleImport] + lines;
    JoinHead(SampleImport + "\n" + SampleImport, lines, "\n");
    JoinSplit("\n" + rest, '\n');
  }

  /** Consolidating the two lines, followed by nothing or by two line
      breaks, keeps them and adds two line breaks after them. */
  lemma {:induction false} TwoSamplesConsolidated(rest: string)
    requires rest == "" || rest == "\n\n"
    ensures Consolidated(SampleImport + "\n" + SampleImport + rest) == SampleImport + "\n" + SampleImport + "\n\n" + rest
  {
    var s := SampleImport + "\n" + SampleImport + rest;
    assert s[..17] == SampleImport && s[18..35] == SampleImport && s[35..] == rest;
    TwoSampleMatches(s);
    TwoSampleLines(s);
    BlankLinesMoved(rest);
  }

  /** Consolidating twice adds two more empty lines than consolidating once. */
  lemma {:induction false} ConsolidationNotIdempotent()
    ensures var s := SampleImport + "\n" + SampleImport; Consolidated(Consolidated(s)) == Consolidated(s) + "\n\n"
  {
    var s := SampleImport + "\n" + SampleImport;
    var u := s + "\n\n";
    TwoSamplesConsolidated("");
    assert s + "" == s;
    assert Consolidated(s) == u;
    TwoSamplesConsolidated("\n\n");
    assert Consolidated(u) == u + "\n\n";
  }
}
