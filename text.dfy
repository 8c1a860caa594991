/** The JavaScript string built-ins the conversion relies on, as functions on
    `string` (a `seq<char>`): `indexOf`/`includes`, `replace` with a string
    pattern, a global replace of a fixed pattern, `split` on one character and
    `join`, and the upper-casing of a first character. */
module Text {

  datatype Option<+T> = None | Some(value: T)

  /** `pat` occurs in `s` starting at index `i`. */
  predicate OccursAt(s: string, pat: string, i: nat) {
    i + |pat| <= |s| && s[i..i + |pat|] == pat
  }

  /** An occurrence past the end of `x` is an occurrence in `y`. */
  lemma {:induction false} OccursInSuffix(x: string, y: string, pat: string, i: nat)
    requires OccursAt(x + y, pat, i) && |x| <= i
    ensures OccursAt(y, pat, i - |x|)
  {
    assert (x + y)[i..i + |pat|] == y[i - |x|..i - |x| + |pat|];
  }

  /** `s.includes(pat)`. */
  predicate Contains(s: string, pat: string) {
    exists i: nat | i <= |s| :: OccursAt(s, pat, i)
  }

  /** `i` is the first index where `pat` occurs in `s`. */
  predicate FirstOccurrence(s: string, pat: string, i: nat) {
    OccursAt(s, pat, i) && forall j: nat :: j < i ==> !OccursAt(s, pat, j)
  }

  /** `s.indexOf(pat, from)`, with `None` for -1. */
  function IndexOf(s: string, pat: string, from: nat): (r: Option<nat>)
    decreases |s| - from
    ensures r.Some? ==> from <= r.value && OccursAt(s, pat, r.value)
    ensures r.Some? ==> forall j: nat :: from <= j < r.value ==> !OccursAt(s, pat, j)
    ensures r.None? ==> forall j: nat :: from <= j ==> !OccursAt(s, pat, j)
  {
    if from + |pat| > |s| then None
    else if s[from..from + |pat|] == pat then Some(from)
    else IndexOf(s, pat, from + 1)
  }

  lemma {:induction false} IndexOfFirst(s: string, pat: string)
    ensures IndexOf(s, pat, 0).None? <==> !Contains(s, pat)
    ensures IndexOf(s, pat, 0).Some? ==> FirstOccurrence(s, pat, IndexOf(s, pat, 0).value)
  {
    var r := IndexOf(s, pat, 0);
    if r.Some? {
      assert OccursAt(s, pat, r.value);
    }
  }

  /** The first occurrence is the one `indexOf` finds. */
  lemma {:induction false} IndexOfIs(s: string, pat: string, i: nat)
    requires FirstOccurrence(s, pat, i)
    ensures IndexOf(s, pat, 0) == Some(i)
  {
  }

  /** A one-character pattern first occurs at the first copy of the character. */
  lemma {:induction false} IndexOfChar(s: string, c: char, i: nat)
    requires i < |s| && s[i] == c && c !in s[..i]
    ensures IndexOf(s, [c], 0) == Some(i)
  {
    forall j: nat | j < i ensures !OccursAt(s, [c], j) {
      assert s[..i][j] == s[j];
    }
    assert s[i..i + 1] == [c];
    IndexOfIs(s, [c], i);
  }

  /** The last index in `[lo, hi]` where `pat` occurs in `s`. */
  function LastOccurrence(s: string, pat: string, lo: nat, hi: nat): (r: Option<nat>)
    decreases hi
    ensures r.Some? ==> lo <= r.value <= hi && OccursAt(s, pat, r.value)
    ensures r.Some? ==> forall j: nat :: r.value < j <= hi ==> !OccursAt(s, pat, j)
    ensures r.None? ==> forall j: nat :: lo <= j <= hi ==> !OccursAt(s, pat, j)
  {
    if hi < lo then None
    else if OccursAt(s, pat, hi) then Some(hi)
    else if hi == lo then None
    else LastOccurrence(s, pat, lo, hi - 1)
  }

  /** A line terminator of JavaScript regular expressions, which `.` does not
      match without the `s` flag. */
  predicate IsLineTerminator(c: char) {
    c == '\n' || c == '\r' || c as int == 0x2028 || c as int == 0x2029
  }

  /** The characters `\s` matches. */
  predicate IsSpace(c: char) {
    var n := c as int;
    n == 0x09 || n == 0x0A || n == 0x0B || n == 0x0C || n == 0x0D || n == 0x20
    || n == 0xA0 || n == 0x1680 || (0x2000 <= n <= 0x200A) || n == 0x2028 || n == 0x2029
    || n == 0x202F || n == 0x205F || n == 0x3000 || n == 0xFEFF
  }

  /** The character class `['"]`. */
  predicate IsQuote(c: char) {
    c == '\'' || c == '"'
  }

  /** The end of the line that contains index `j`: the first line terminator
      at or after `j`, or the end of the text. */
  function LineEnd(s: string, j: nat): (r: nat)
    requires j <= |s|
    ensures j <= r <= |s|
    ensures r < |s| ==> IsLineTerminator(s[r])
    decreases |s| - j
  {
    if j == |s| || IsLineTerminator(s[j]) then j else LineEnd(s, j + 1)
  }

  /** No character before the end of the line is a line terminator. */
  lemma {:induction false} LineEndRun(s: string, j: nat)
    requires j <= |s|
    ensures forall k :: j <= k < LineEnd(s, j) ==> !IsLineTerminator(s[k])
    decreases |s| - j
  {
    if j < |s| && !IsLineTerminator(s[j]) {
      LineEndRun(s, j + 1);
    }
  }

  /** The end of the line is the first line terminator from `j` on. */
  lemma {:induction false} LineEndFirst(s: string, j: nat, e: nat)
    requires j <= e <= |s|
    requires e < |s| ==> IsLineTerminator(s[e])
    requires forall k :: j <= k < e ==> !IsLineTerminator(s[k])
    ensures LineEnd(s, j) == e
    decreases |s| - j
  {
    if j < e {
      LineEndFirst(s, j + 1, e);
    }
  }

  /** The end of the run of `\s` characters that starts at `j`. */
  function SpaceEnd(s: string, j: nat): (r: nat)
    requires j <= |s|
    ensures j <= r <= |s|
    ensures r < |s| ==> !IsSpace(s[r])
    decreases |s| - j
  {
    if j == |s| || !IsSpace(s[j]) then j else SpaceEnd(s, j + 1)
  }

  /** Every character of the run is a `\s` character. */
  lemma {:induction false} SpaceEndSpaces(s: string, j: nat)
    requires j <= |s|
    ensures forall k :: j <= k < SpaceEnd(s, j) ==> IsSpace(s[k])
    decreases |s| - j
  {
    if j < |s| && IsSpace(s[j]) {
      SpaceEndSpaces(s, j + 1);
    }
  }

  /** `s.replace(pat, rep)` with a string (or flag-free literal regular
      expression) pattern: only the first occurrence is replaced. */
  function ReplaceFirst(s: string, pat: string, rep: string): string {
    match IndexOf(s, pat, 0)
    case None => s
    case Some(i) => s[..i] + rep + s[i + |pat|..]
  }

  lemma {:induction false} ReplaceFirstAt(s: string, pat: string, rep: string, i: nat)
    requires FirstOccurrence(s, pat, i)
    ensures ReplaceFirst(s, pat, rep) == s[..i] + rep + s[i + |pat|..]
  {
    IndexOfIs(s, pat, i);
  }

  lemma {:induction false} ReplaceFirstAbsent(s: string, pat: string, rep: string)
    requires !Contains(s, pat)
    ensures ReplaceFirst(s, pat, rep) == s
  {
    IndexOfFirst(s, pat);
  }

  /** `s.replace(/pat/g, rep)` for a non-empty literal pattern: every
      occurrence found scanning left to right, without overlap. */
  function ReplaceEvery(s: string, pat: string, rep: string): (r: string)
    requires |pat| > 0
    ensures |rep| <= |pat| ==> |r| <= |s|
    decreases |s|
  {
    if |s| < |pat| then s
    else if s[..|pat|] == pat then rep + ReplaceEvery(s[|pat|..], pat, rep)
    else [s[0]] + ReplaceEvery(s[1..], pat, rep)
  }

  lemma {:induction false} ReplaceEveryAbsent(s: string, pat: string, rep: string)
    requires |pat| > 0
    requires !Contains(s, pat)
    ensures ReplaceEvery(s, pat, rep) == s
    decreases |s|
  {
    if |s| >= |pat| {
      assert !OccursAt(s, pat, 0);
      assert !Contains(s[1..], pat) by {
        forall j: nat | OccursAt(s[1..], pat, j) ensures false {
          assert s[1..][j..j + |pat|] == s[j + 1..j + 1 + |pat|];
          assert OccursAt(s, pat, j + 1);
        }
      }
      ReplaceEveryAbsent(s[1..], pat, rep);
    }
  }

  /** `s.split(c)`: the pieces between occurrences of `c`; never empty. */
  function Split(s: string, c: char): (r: seq<string>)
    ensures |r| >= 1
    decreases |s|
  {
    if |s| == 0 then [""]
    else
      var rest := Split(s[1..], c);
      if s[0] == c then [""] + rest else [[s[0]] + rest[0]] + rest[1..]
  }

  /** `xs.join(sep)`. */
  function Join(xs: seq<string>, sep: string): string
    decreases |xs|
  {
    if |xs| == 0 then ""
    else if |xs| == 1 then xs[0]
    else xs[0] + sep + Join(xs[1..], sep)
  }

  lemma {:induction false} JoinHead(x: string, xs: seq<string>, sep: string)
    requires |xs| > 0
    ensures Join([x] + xs, sep) == x + sep + Join(xs, sep)
  {
    assert ([x] + xs)[1..] == xs;
  }

  /** Joining two non-empty runs is joining each, with a separator between. */
  lemma {:induction false} JoinAppend(xs: seq<string>, ys: seq<string>, sep: string)
    requires |xs| > 0 && |ys| > 0
    ensures Join(xs + ys, sep) == Join(xs, sep) + sep + Join(ys, sep)
    decreases |xs|
  {
    if |xs| == 1 {
      JoinHead(xs[0], ys, sep);
      assert xs + ys == [xs[0]] + ys;
    } else {
      JoinAppend(xs[1..], ys, sep);
      assert (xs + ys)[1..] == xs[1..] + ys;
      assert xs + ys == [xs[0]] + (xs[1..] + ys);
      JoinHead(xs[0], xs[1..] + ys, sep);
      JoinHead(xs[0], xs[1..], sep);
      assert xs == [xs[0]] + xs[1..];
    }
  }

  /** The first text joined is a prefix of the join. */
  lemma {:induction false} JoinStartsWith(x: string, xs: seq<string>, sep: string)
    ensures x <= Join([x] + xs, sep)
  {
    if |xs| > 0 {
      JoinHead(x, xs, sep);
    }
  }

  lemma {:induction false} JoinCons(x: string, y: string, ys: seq<string>, sep: string)
    ensures Join([x + y] + ys, sep) == x + Join([y] + ys, sep)
  {
    if |ys| > 0 {
      assert ([x + y] + ys)[1..] == ys;
      assert ([y] + ys)[1..] == ys;
    }
  }

  /** Joining the pieces of a split gives the text back. */
  lemma {:induction false} JoinSplit(s: string, c: char)
    ensures Join(Split(s, c), [c]) == s
    decreases |s|
  {
    if |s| > 0 {
      var rest := Split(s[1..], c);
      JoinSplit(s[1..], c);
      if s[0] == c {
        assert ([""] + rest)[1..] == rest;
        assert Join([""] + rest, [c]) == "" + [c] + Join(rest, [c]);
        assert s == [c] + s[1..];
      } else {
        assert rest == [rest[0]] + rest[1..];
        JoinCons([s[0]], rest[0], rest[1..], [c]);
        assert s == [s[0]] + s[1..];
      }
    }
  }

  /** No piece of a split contains the separator. */
  lemma {:induction false} SplitPiecesFree(s: string, c: char)
    ensures forall i :: 0 <= i < |Split(s, c)| ==> c !in Split(s, c)[i]
    decreases |s|
  {
    if |s| > 0 {
      SplitPiecesFree(s[1..], c);
    }
  }

  /** A text without the separator is a single piece. */
  lemma {:induction false} SplitFree(s: string, c: char)
    requires c !in s
    ensures Split(s, c) == [s]
    decreases |s|
  {
    if |s| > 0 {
      SplitFree(s[1..], c);
      assert s == [s[0]] + s[1..];
    }
  }

  /** Splitting at a separator splits the two sides independently. */
  lemma {:induction false} SplitAround(a: string, b: string, c: char)
    ensures Split(a + [c] + b, c) == Split(a, c) + Split(b, c)
    decreases |a|
  {
    if |a| == 0 {
      var s := a + [c] + b;
      assert s == [c] + b;
      assert s[1..] == b;
    } else {
      SplitAround(a[1..], b, c);
      SplitAroundStep(a, b, c);
    }
  }

  lemma {:induction false} SplitAroundStep(a: string, b: string, c: char)
    requires |a| > 0
    requires Split(a[1..] + [c] + b, c) == Split(a[1..], c) + Split(b, c)
    ensures Split(a + [c] + b, c) == Split(a, c) + Split(b, c)
  {
    var s, tail := a + [c] + b, a[1..] + [c] + b;
    assert s[1..] == tail && s[0] == a[0];
    if a[0] == c {
      SplitSeparatorStep(s, a, c, tail, Split(b, c));
    } else {
      SplitCharStep(s, a, c, tail, Split(b, c));
    }
  }

  lemma {:induction false} SplitSeparatorStep(s: string, a: string, c: char, tail: string, rest: seq<string>)
    requires |s| > 0 && |a| > 0 && s[0] == c && a[0] == c && s[1..] == tail
    requires Split(tail, c) == Split(a[1..], c) + rest
    ensures Split(s, c) == Split(a, c) + rest
  {
    SplitHead(s, c, tail);
    SplitHead(a, c, a[1..]);
    ConcatAssoc([""], Split(a[1..], c), rest);
  }

  lemma {:induction false} ConcatAssoc<T>(x: seq<T>, y: seq<T>, z: seq<T>)
    ensures x + (y + z) == x + y + z
  {
  }

  lemma {:induction false} SplitCharStep(s: string, a: string, c: char, tail: string, rest: seq<string>)
    requires |s| > 0 && |a| > 0 && s[0] != c && a[0] == s[0] && s[1..] == tail
    requires Split(tail, c) == Split(a[1..], c) + rest
    ensures Split(s, c) == Split(a, c) + rest
  {
    SplitHead(s, c, tail);
    SplitHead(a, c, a[1..]);
    ExtendFirst(s[0], Split(a[1..], c), rest);
  }

  /** Extending the first piece commutes with appending pieces. */
  lemma {:induction false} ExtendFirst(x: char, ps: seq<string>, rest: seq<string>)
    requires |ps| > 0
    ensures [[x] + (ps + rest)[0]] + (ps + rest)[1..] == [[x] + ps[0]] + ps[1..] + rest
  {
    assert (ps + rest)[0] == ps[0];
    assert (ps + rest)[1..] == ps[1..] + rest;
  }

  /** One step of `Split`. */
  lemma {:induction false} SplitHead(s: string, c: char, tail: string)
    requires |s| > 0 && s[1..] == tail
    ensures s[0] == c ==> Split(s, c) == [""] + Split(tail, c)
    ensures s[0] != c ==> Split(s, c) == [[s[0]] + Split(tail, c)[0]] + Split(tail, c)[1..]
  {
  }

  /** The pieces of every text of `xs`, one after the other. */
  function SplitEach(xs: seq<string>, c: char): seq<string>
    decreases |xs|
  {
    if |xs| == 0 then [] else Split(xs[0], c) + SplitEach(xs[1..], c)
  }

  lemma {:induction false} SplitEachOne(x: string, c: char)
    ensures SplitEach([x], c) == Split(x, c)
  {
    assert [x][1..] == [];
  }

  lemma {:induction false} SplitEachAppend(xs: seq<string>, ys: seq<string>, c: char)
    ensures SplitEach(xs + ys, c) == SplitEach(xs, c) + SplitEach(ys, c)
    decreases |xs|
  {
    if |xs| > 0 {
      assert (xs + ys)[1..] == xs[1..] + ys;
      SplitEachAppend(xs[1..], ys, c);
    } else {
      assert xs + ys == ys;
    }
  }

  lemma {:induction false} SplitEachFree(xs: seq<string>, c: char)
    requires forall i :: 0 <= i < |xs| ==> c !in xs[i]
    ensures SplitEach(xs, c) == xs
    decreases |xs|
  {
    if |xs| > 0 {
      SplitFree(xs[0], c);
      SplitEachFree(xs[1..], c);
    }
  }

  /** Splitting a join on the same character splits every joined text. */
  lemma {:induction false} SplitJoin(xs: seq<string>, c: char)
    requires |xs| > 0
    ensures Split(Join(xs, [c]), c) == SplitEach(xs, c)
    decreases |xs|
  {
    if |xs| > 1 {
      SplitJoin(xs[1..], c);
      SplitAround(xs[0], Join(xs[1..], [c]), c);
      assert Join(xs, [c]) == xs[0] + [c] + Join(xs[1..], [c]);
    } else {
      assert xs[1..] == [];
    }
  }

  /** Splitting a join of separator-free texts gives the texts back. */
  lemma {:induction false} SplitJoinFree(xs: seq<string>, c: char)
    requires |xs| > 0
    requires forall i :: 0 <= i < |xs| ==> c !in xs[i]
    ensures Split(Join(xs, [c]), c) == xs
  {
    SplitJoin(xs, c);
    SplitEachFree(xs, c);
  }

  /** `c.toUpperCase()` for the ASCII letters; every other character is kept. */
  function UpperChar(c: char): (u: char)
    ensures 'a' <= c <= 'z' ==> 'A' <= u <= 'Z' && u as int == c as int - 32
    ensures !('a' <= c <= 'z') ==> u == c
  {
    if 'a' <= c <= 'z' then (c as int - 32) as char else c
  }

  /** `s.charAt(0).toUpperCase() + s.substring(1)`. */
  function Capitalize(s: string): (r: string)
    ensures |r| == |s|
    ensures |s| > 0 ==> r[0] == UpperChar(s[0]) && r[1..] == s[1..]
  {
    if |s| == 0 then "" else [UpperChar(s[0])] + s[1..]
  }
}
