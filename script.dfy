/** The text rewrites of `replaceAll` in src/command/index.ts, applied to the
    transformer's output (`tree.transformed`): the `return { ... }` block, the
    `vue` import retargeted to `@vue/composition-api`, the `setup ` keyword
    dropped, the body wrapped in `defineComponent({ ... })`, the
    `withDefaults`/`defineProps`/`defineEmits` calls removed and the `$emit`
    rewrites. Every regular expression of the source is a search written out
    here with the match the JavaScript engine finds. */
module Script {
  import opened Text

  const ScriptClose: string := "</script>"

  // Line 124: the return block goes before the first `</script>`.

  const ReturnOpen: string := "\r\nreturn {\n    "

  /** The replacement text before `$1`: the names, one per line, inside
      `return { ... }`. */
  function ReturnBlock(names: seq<string>): (r: string)
    ensures ReturnOpen <= r
    ensures |r| >= |ReturnOpen| + 3 && r[|r| - 3..] == "\n}\n"
  {
    ReturnOpen + Join(names, ",\n    ") + "\n}\n"
  }

  /** The return block is added once, and only when the text has a
      `</script>`. */
  function InsertReturn(s: string, names: seq<string>): (r: string)
    ensures |r| == |s| + (if Contains(s, ScriptClose) then |ReturnBlock(names)| else 0)
  {
    ReplaceFirst(s, ScriptClose, ReturnBlock(names) + ScriptClose)
  }

  /** The return block is inserted right before the first `</script>`, and
      everything else is kept. */
  lemma {:induction false} ReturnBeforeFirstClose(s: string, names: seq<string>, i: nat)
    requires FirstOccurrence(s, ScriptClose, i)
    ensures InsertReturn(s, names) == s[..i] + ReturnBlock(names) + s[i..]
  {
    ReplaceFirstAt(s, ScriptClose, ReturnBlock(names) + ScriptClose, i);
    assert s[i..] == ScriptClose + s[i + |ScriptClose|..];
  }

  /** Without a `</script>` the text is left as it is. */
  lemma {:induction false} NoCloseNoReturn(s: string, names: seq<string>)
    requires !Contains(s, ScriptClose)
    ensures InsertReturn(s, names) == s
  {
    ReplaceFirstAbsent(s, ScriptClose, ReturnBlock(names) + ScriptClose);
  }

  // Line 125: `import {...} from 'vue'` on one line becomes an import of
  // `@vue/composition-api` that also brings in `defineComponent`.

  const VueImportOpen: string := "import {"

  const ApiImportTail: string := ", defineComponent } from '@vue/composition-api'"

  /** ` } from ` followed by `vue` in quotes, either kind, starts at `x`. */
  predicate VueTailAt(s: string, x: nat) {
    x + 13 <= |s| && s[x..x + 8] == " } from " && IsQuote(s[x + 8])
    && s[x + 9..x + 12] == "vue" && IsQuote(s[x + 12])
  }

  /** The greedy `(.*)`: the last start of the tail in `[lo, hi]`. */
  function LastVueTail(s: string, lo: nat, hi: nat): (r: Option<nat>)
    decreases hi
    ensures r.Some? ==> lo <= r.value <= hi && VueTailAt(s, r.value)
    ensures r.Some? ==> forall y: nat :: r.value < y <= hi ==> !VueTailAt(s, y)
    ensures r.None? ==> forall y: nat :: lo <= y <= hi ==> !VueTailAt(s, y)
  {
    if hi < lo then None
    else if VueTailAt(s, hi) then Some(hi)
    else if hi == lo then None
    else LastVueTail(s, lo, hi - 1)
  }

  /** The match starting at `p`, given by the start of its tail: the group
      runs to the end of the line at most. */
  function VueImportAt(s: string, p: nat): Option<nat> {
    if OccursAt(s, VueImportOpen, p) then LastVueTail(s, p + 8, LineEnd(s, p + 8)) else None
  }

  /** The leftmost match at or after `p`. */
  function FirstVueImport(s: string, p: nat): (r: Option<(nat, nat)>)
    decreases |s| - p
    ensures r.Some? ==> p <= r.value.0 && VueImportAt(s, r.value.0) == Some(r.value.1)
    ensures r.Some? ==> forall q: nat :: p <= q < r.value.0 ==> VueImportAt(s, q).None?
    ensures r.None? ==> forall q: nat :: p <= q ==> VueImportAt(s, q).None?
  {
    if p + 8 > |s| then None
    else match VueImportAt(s, p)
      case Some(x) => Some((p, x))
      case None => FirstVueImport(s, p + 1)
  }

  /** The 13 characters of the ` } from 'vue'` tail become the longer
      `defineComponent` tail, when the expression matches. */
  function RetargetVueImport(s: string): (r: string)
    ensures |r| == |s| + (if FirstVueImport(s, 0).Some? then |ApiImportTail| - 13 else 0)
  {
    match FirstVueImport(s, 0)
    case None => s
    case Some(m) =>
      s[..m.0] + VueImportOpen + s[m.0 + 8..m.1]
      + ApiImportTail + s[m.1 + 13..]
  }

  /** The first one-line `vue` import is retargeted: its names are kept in
      place, between the import keyword and the added `defineComponent`, no
      line break among them, and the rest of the text is unchanged. */
  lemma {:induction false} RetargetKeepsNames(s: string)
    requires FirstVueImport(s, 0).Some?
    ensures var (p, x) := FirstVueImport(s, 0).value;
      && OccursAt(s, VueImportOpen, p)
      && VueTailAt(s, x)
      && (forall k :: p + 8 <= k < x ==> !IsLineTerminator(s[k]))
      && RetargetVueImport(s)
         == s[..p] + VueImportOpen + s[p + 8..x] + ApiImportTail + s[x + 13..]
  {
    var (p, x) := FirstVueImport(s, 0).value;
    assert VueImportAt(s, p) == Some(x);
    LineEndRun(s, p + 8);
  }

  /** A text where the expression matches nowhere is not changed. */
  lemma {:induction false} NoMatchUnchanged(s: string)
    requires forall p: nat :: VueImportAt(s, p).None?
    ensures RetargetVueImport(s) == s
  {
  }

  /** In particular, a text without `import {` is not changed. */
  lemma {:induction false} NoVueImportUnchanged(s: string)
    requires !Contains(s, VueImportOpen)
    ensures RetargetVueImport(s) == s
  {
    assert forall p: nat :: VueImportAt(s, p).None?;
    NoMatchUnchanged(s);
  }

  // Line 126: the first `setup ` is removed.

  /** Six characters go when the text has `setup `, none otherwise. */
  function DropSetupKeyword(s: string): (r: string)
    ensures |r| == |s| - (if Contains(s, "setup ") then 6 else 0)
  {
    ReplaceFirst(s, "setup ", "")
  }

  /** Exactly the first `setup ` goes; the text around it is kept. */
  lemma {:induction false} SetupKeywordDropped(s: string, i: nat)
    requires FirstOccurrence(s, "setup ", i)
    ensures DropSetupKeyword(s) == s[..i] + s[i + 6..]
  {
    ReplaceFirstAt(s, "setup ", "", i);
  }

  /** Without `setup ` the text is left as it is. */
  lemma {:induction false} NoSetupKeywordUnchanged(s: string)
    requires !Contains(s, "setup ")
    ensures DropSetupKeyword(s) == s
  {
    ReplaceFirstAbsent(s, "setup ", "");
  }

  // Lines 130 and 136: the text between the quoted `@vue/composition-api`
  // and the last `</script>` becomes the body of `defineComponent`.

  const ComposedApi: string := "@vue/composition-api"

  /** The lookbehind `(?<=['"]@vue\/composition-api['"])` holds at `p`. */
  predicate AfterApiImport(s: string, p: nat) {
    22 <= p <= |s| && IsQuote(s[p - 22]) && s[p - 21..p - 1] == ComposedApi && IsQuote(s[p - 1])
  }

  /** The first position at or after `p` where the lookbehind holds. */
  function FirstAfterApi(s: string, p: nat): (r: Option<nat>)
    decreases |s| + 1 - p
    ensures r.Some? ==> p <= r.value && AfterApiImport(s, r.value)
    ensures r.Some? ==> forall q: nat :: p <= q < r.value ==> !AfterApiImport(s, q)
    ensures r.None? ==> forall q: nat :: p <= q ==> !AfterApiImport(s, q)
  {
    if p > |s| then None
    else if AfterApiImport(s, p) then Some(p)
    else FirstAfterApi(s, p + 1)
  }

  /** The global replace with `pre + $1 + post`. The greedy, dot-all `(.*)`
      runs from the first position after the quoted module name to the last
      `</script>`. The search then resumes there, and when that position
      also follows a quoted module name, an empty match adds `pre + post`
      once more. */
  function WrapBody(s: string, pre: string, post: string): (r: string)
    ensures |r| == |s| || |r| == |s| + |pre| + |post| || |r| == |s| + 2 * (|pre| + |post|)
  {
    match FirstAfterApi(s, 0)
    case None => s
    case Some(p) =>
      match LastOccurrence(s, ScriptClose, p, |s|)
      case None => s
      case Some(q) =>
        s[..p] + pre + s[p..q] + post
        + (if p < q && AfterApiImport(s, q) then pre + post else "")
        + s[q..]
  }

  /** The body between the import and the last `</script>` is kept in place,
      inside the wrapper; text after the last `</script>` is untouched. */
  lemma {:induction false} WrapKeepsBody(s: string, pre: string, post: string, p: nat, q: nat)
    requires FirstAfterApi(s, 0) == Some(p)
    requires OccursAt(s, ScriptClose, q) && p <= q
    requires forall j: nat :: q < j ==> !OccursAt(s, ScriptClose, j)
    requires !AfterApiImport(s, q) || p == q
    ensures WrapBody(s, pre, post) == s[..p] + pre + s[p..q] + post + s[q..]
  {
    var r := LastOccurrence(s, ScriptClose, p, |s|);
    assert r == Some(q);
  }

  /** When the last `</script>` itself follows a quoted module name after
      the first one, the empty match there adds the wrapper a second time,
      right before it. */
  lemma {:induction false} WrapTwiceAtClose(s: string, pre: string, post: string, p: nat, q: nat)
    requires FirstAfterApi(s, 0) == Some(p)
    requires OccursAt(s, ScriptClose, q) && p < q
    requires forall j: nat :: q < j ==> !OccursAt(s, ScriptClose, j)
    requires AfterApiImport(s, q)
    ensures WrapBody(s, pre, post) == s[..p] + pre + s[p..q] + post + pre + post + s[q..]
  {
    var r := LastOccurrence(s, ScriptClose, p, |s|);
    assert r == Some(q);
  }

  /** The body of `defineComponent` when there are props, around `$1`. */
  function PropsPrefix(propsText: string): string {
    "\n\nexport default defineComponent({\nprops:" + propsText + ",setup(props) {"
  }

  const PlainPrefix: string := "\n\nexport default defineComponent({\nsetup() {"

  const WrapSuffix: string := "\n}\n})\n"

  // Lines 131, 132 and 141: a call is removed, from the optional
  // `const ... = ` before it up to the first closing text after its name.

  /** The text just before `w` is `prefix`. */
  predicate PrecededBy(s: string, prefix: string, w: nat) {
    |prefix| <= w <= |s| && s[w - |prefix|..w] == prefix
  }

  /** `(prefix)?name.*?close` with the `s` flag, replaced by nothing. The
      leftmost match starts at the first occurrence of `name`, or
      `|prefix|` characters earlier when `prefix` is written there; no
      earlier start can match because neither prefix used holds the first
      letter of its name. */
  function StripCall(s: string, prefix: string, name: string, close: string): (r: string)
    ensures |r| <= |s|
  {
    match IndexOf(s, name, 0)
    case None => s
    case Some(w) =>
      match IndexOf(s, close, w + |name|)
      case None => s
      case Some(c) =>
        var start := if PrecededBy(s, prefix, w) then w - |prefix| else w;
        s[..start] + s[c + |close|..]
  }

  /** What a removal takes out: the first call, through the first closing
      text after its name, and nothing else. */
  lemma {:induction false} StripCallRemovesFirst(s: string, prefix: string, name: string, close: string, w: nat, c: nat)
    requires FirstOccurrence(s, name, w)
    requires IndexOf(s, close, w + |name|) == Some(c)
    ensures !PrecededBy(s, prefix, w) ==> StripCall(s, prefix, name, close) == s[..w] + s[c + |close|..]
    ensures PrecededBy(s, prefix, w) ==> StripCall(s, prefix, name, close) == s[..w - |prefix|] + s[c + |close|..]
  {
    IndexOfIs(s, name, w);
    StripCallAt(s, prefix, name, close, w, c);
  }

  lemma {:induction false} StripCallAt(s: string, prefix: string, name: string, close: string, w: nat, c: nat)
    requires IndexOf(s, name, 0) == Some(w)
    requires IndexOf(s, close, w + |name|) == Some(c)
    ensures StripCall(s, prefix, name, close) == s[..if PrecededBy(s, prefix, w) then w - |prefix| else w] + s[c + |close|..]
  {
  }

  /** A text without the call is left as it is. */
  lemma {:induction false} StripCallAbsent(s: string, prefix: string, name: string, close: string)
    requires !Contains(s, name)
    ensures StripCall(s, prefix, name, close) == s
  {
    IndexOfFirst(s, name);
  }

  // Line 142: `setup()` or `setup(props)` receives `emit`.

  const EmitParams: string := "(props, { emit })"

  /** `(?<=setup)\((props)?\)` matches at `q`. */
  predicate SetupParensAt(s: string, q: nat) {
    5 <= q <= |s| && s[q - 5..q] == "setup" && (OccursAt(s, "(props)", q) || OccursAt(s, "()", q))
  }

  /** The first match at or after `p`. */
  function SetupParens(s: string, p: nat): (r: Option<nat>)
    decreases |s| + 1 - p
    ensures r.Some? ==> p <= r.value && SetupParensAt(s, r.value)
    ensures r.Some? ==> forall q: nat :: p <= q < r.value ==> !SetupParensAt(s, q)
    ensures r.None? ==> forall q: nat :: p <= q ==> !SetupParensAt(s, q)
  {
    if p > |s| then None
    else if SetupParensAt(s, p) then Some(p)
    else SetupParens(s, p + 1)
  }

  /** The optional `props` is greedy: `(props)` is taken whole when present. */
  function ParensLength(s: string, q: nat): nat {
    if OccursAt(s, "(props)", q) then 7 else 2
  }

  /** Everything before the first match is kept and the match becomes
      `(props, { emit })`; the text only grows. */
  function EmitSignature(s: string): (r: string)
    ensures |r| >= |s|
    ensures SetupParens(s, 0).Some? ==>
              var q := SetupParens(s, 0).value;
              r[..q] == s[..q] && OccursAt(r, EmitParams, q)
  {
    match SetupParens(s, 0)
    case None => s
    case Some(q) => s[..q] + EmitParams + s[q + ParensLength(s, q)..]
  }

  /** Only the parentheses right after the first `setup` that encloses
      nothing or exactly `props` change. */
  lemma {:induction false} EmitSignatureAt(s: string, q: nat)
    requires SetupParensAt(s, q)
    requires forall j: nat :: j < q ==> !SetupParensAt(s, j)
    ensures OccursAt(s, "(props)", q) ==> EmitSignature(s) == s[..q] + EmitParams + s[q + 7..]
    ensures !OccursAt(s, "(props)", q) ==> s[q..q + 2] == "()" && EmitSignature(s) == s[..q] + EmitParams + s[q + 2..]
  {
    assert SetupParens(s, 0) == Some(q);
  }

  // Line 143: every `$emit` becomes `emit`.

  /** Every `$emit` loses its dollar: the text never grows. */
  function EmitCalls(s: string): (r: string)
    ensures |r| <= |s|
  {
    ReplaceEvery(s, "$emit", "emit")
  }

  /** The replacement can leave `$emit` behind only where the text had
      `$$emit`: unless it did, no `$emit` remains. */
  lemma {:induction false} EmitCallsRemoveAll(s: string)
    requires !Contains(s, "$$emit")
    ensures !Contains(EmitCalls(s), "$emit")
  {
    NoDollarEmit(s);
  }

  /** `$$emit` shows why the condition is needed: one `$` stays. */
  lemma {:induction false} DoubleDollarKept()
    ensures EmitCalls("$$emit") == "$emit"
  {
    assert "$$emit"[..5][1] != "$emit"[1];
    assert "$$emit"[1..][..5] == "$emit";
    assert "$$emit"[1..][5..] == "";
  }

  predicate StartsWith(s: string, w: string) {
    |w| <= |s| && s[..|w|] == w
  }

  /** The output begins with a piece of `emit` only where the input did, or
      where the input begins with `$emit` and the piece is all of `emit`. */
  lemma {:induction false} EmitCallsPrefix(s: string, j: nat)
    requires j < 4
    requires StartsWith(EmitCalls(s), "emit"[j..])
    ensures StartsWith(s, "emit"[j..]) || (j == 0 && StartsWith(s, "$emit"))
    decreases |s|
  {
    var w := "emit"[j..];
    if |s| >= 5 && s[..5] == "$emit" {
    } else if |s| >= 5 {
      var t := EmitCalls(s[1..]);
      assert EmitCalls(s) == [s[0]] + t;
      assert s[0] == w[0];
      if j < 3 {
        assert "emit"[j + 1..] == w[1..];
        assert t[..|w| - 1] == EmitCalls(s)[1..|w|];
        EmitCallsPrefix(s[1..], j + 1);
        assert s[1..][..|w| - 1] == s[1..|w|];
      }
      assert s[..|w|] == [s[0]] + s[1..|w|];
    }
  }

  /** Putting `emit` in front creates no `$emit`. */
  lemma {:induction false} NoEmitAfterWord(t: string)
    requires !Contains(t, "$emit")
    ensures !Contains("emit" + t, "$emit")
  {
    var x := "emit" + t;
    forall i: nat | i <= |x| ensures !OccursAt(x, "$emit", i) {
      if i < 4 {
        assert x[i] == "emit"[i];
        assert i + 5 <= |x| ==> x[i..i + 5][0] == x[i];
      } else if OccursAt(x, "$emit", i) {
        OccursInSuffix("emit", t, "$emit", i);
      }
    }
  }

  /** Putting one character in front creates `$emit` only when that
      character is `$` and the text begins with `emit`. */
  lemma {:induction false} NoEmitAfterChar(c: char, t: string)
    requires !Contains(t, "$emit")
    requires c == '$' ==> !StartsWith(t, "emit")
    ensures !Contains([c] + t, "$emit")
  {
    var x := [c] + t;
    forall i: nat | i <= |x| ensures !OccursAt(x, "$emit", i) {
      if i >= 1 {
        if OccursAt(x, "$emit", i) {
          OccursInSuffix([c], t, "$emit", i);
        }
      } else if |t| >= 4 {
        assert x[0..5] == [c] + t[..4];
        assert "$emit" == ['$'] + "emit";
        assert ([c] + t[..4])[0] == c && ([c] + t[..4])[1..] == t[..4];
      }
    }
  }

  lemma {:induction false} NoDollarEmit(s: string)
    requires !Contains(s, "$$emit")
    ensures !Contains(EmitCalls(s), "$emit")
    decreases |s|
  {
    if |s| < 5 {
      assert EmitCalls(s) == s;
      forall i: nat | i <= |s| ensures !OccursAt(s, "$emit", i) {
      }
    } else if s[..5] == "$emit" {
      var rest := s[5..];
      assert !Contains(rest, "$$emit") by {
        forall j: nat | j <= |rest| ensures !OccursAt(rest, "$$emit", j) {
          if j + 6 <= |rest| {
            assert rest[j..j + 6] == s[j + 5..j + 11];
            assert !OccursAt(s, "$$emit", j + 5);
          }
        }
      }
      NoDollarEmit(rest);
      assert EmitCalls(s) == "emit" + EmitCalls(rest);
      NoEmitAfterWord(EmitCalls(rest));
    } else {
      assert !Contains(s[1..], "$$emit") by {
        forall j: nat | j <= |s[1..]| ensures !OccursAt(s[1..], "$$emit", j) {
          if j + 6 <= |s[1..]| {
            assert s[1..][j..j + 6] == s[j + 1..j + 7];
            assert !OccursAt(s, "$$emit", j + 1);
          }
        }
      }
      NoDollarEmit(s[1..]);
      var t := EmitCalls(s[1..]);
      assert EmitCalls(s) == [s[0]] + t;
      if StartsWith(t, "emit") {
        EmitCallsPrefix(s[1..], 0);
      }
      assert s[..5] == [s[0]] + s[1..][..4];
      assert !OccursAt(s, "$$emit", 0);
      assert |s| >= 6 ==> s[..6] == [s[0]] + s[1..][..5];
      NoEmitAfterChar(s[0], t);
    }
  }

  // The order of `replaceAll`.

  /** Lines 123-126: a missing transformer output gives the empty text. */
  function Draft(transformed: Option<string>, names: seq<string>): (r: string)
    ensures transformed.None? ==> r == ""
  {
    match transformed
    case None => ""
    case Some(t) => DropSetupKeyword(RetargetVueImport(InsertReturn(t, names)))
  }

  /** Lines 128-137: with props, the wrapper declares them and `setup`
      receives them, and the `withDefaults` and `defineProps` calls go;
      without, `setup` takes no parameter. */
  function Wrapped(draft: string, hasProps: bool, propsText: string): (r: string)
    ensures !hasProps ==> |r| >= |draft|
    ensures hasProps ==> |r| <= |draft| + 2 * (|PropsPrefix(propsText)| + |WrapSuffix|)
  {
    if hasProps then
      StripCall(StripCall(WrapBody(draft, PropsPrefix(propsText), WrapSuffix),
                          "const props = ", "withDefaults", "})"),
                "const props = ", "defineProps", ")")
    else WrapBody(draft, PlainPrefix, WrapSuffix)
  }

  /** A draft with no quoted `@vue/composition-api` and none of the calls
      is not changed. */
  lemma {:induction false} WrappedUnchanged(draft: string, hasProps: bool, propsText: string)
    requires FirstAfterApi(draft, 0).None?
    requires !Contains(draft, "withDefaults") && !Contains(draft, "defineProps")
    ensures Wrapped(draft, hasProps, propsText) == draft
  {
    StripCallAbsent(draft, "const props = ", "withDefaults", "})");
    StripCallAbsent(draft, "const props = ", "defineProps", ")");
  }

  /** Lines 139-144: the emit rewrites, only when the component emits. */
  function EmitRewritten(s: string, usesEmit: bool): (r: string)
    ensures !usesEmit ==> r == s
  {
    if usesEmit then EmitCalls(EmitSignature(StripCall(s, "const $emit = ", "defineEmits", "])"))) else s
  }
}
