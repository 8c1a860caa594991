/** The template reference extractor (`findVarNode` in src/command/index.ts):
    the values of the parsed template tree, the root name of an expression,
    and the insertion-ordered set the walk fills. The walk itself mutates
    the conversion's state and is the method `Command.Conversion.FindVarNode`;
    the functions here are what that method is proved against. */
module Template {
  import opened Text

  /** A value met while walking the tree returned by the template parser.
      `Scalar` is every value whose `typeof` is not 'object' (strings,
      numbers, booleans, undefined); `Null` is `null`, whose `typeof` is
      'object' but which has no fields to enumerate; `Object` is a node, an
      array or any other record. `kind` stands for the node's `type` field
      (a record without a numeric `type` has some kind other than 4),
      `isStatic` for its `isStatic` field (absent reads as false) and
      `fields` for `Object.values(...)` in property order. */
  datatype Value =
    | Scalar
    | Null
    | Object(kind: int, isStatic: bool, content: string, fields: seq<Value>)

  /** The walk's test `node?.type === 4 && !node.isStatic`: a dynamic
      simple expression. */
  predicate IsDynamic(v: Value) {
    v.Object? && v.kind == 4 && !v.isStatic
  }

  /** `content.split('.')[0]`: the text before the first '.', or all of it. */
  function Root(content: string): (r: string)
    ensures r <= content
    ensures '.' !in r
    ensures |r| < |content| ==> content[|r|] == '.'
    decreases |content|
  {
    if |content| == 0 || content[0] == '.' then ""
    else [content[0]] + Root(content[1..])
  }

  lemma {:induction false} RootOfMemberAccess()
    ensures Root("foo.bar.baz") == "foo"
  {
  }

  /** The names the walk adds, in the order it adds them, repetitions kept:
      a dynamic expression contributes its root and nothing below it; any
      other object contributes what its field values contribute, in order.
      No name has a '.' in it. */
  function Names(v: Value): (r: seq<string>)
    ensures forall i :: 0 <= i < |r| ==> '.' !in r[i]
    decreases v
  {
    match v
    case Scalar => []
    case Null => []
    case Object(k, st, c, fs) => if k == 4 && !st then [Root(c)] else NamesAll(fs)
  }

  function NamesAll(fs: seq<Value>): (r: seq<string>)
    ensures forall i :: 0 <= i < |r| ==> '.' !in r[i]
    decreases fs
  {
    if |fs| == 0 then [] else Names(fs[0]) + NamesAll(fs[1..])
  }

  lemma {:induction false} NamesAllAppend(fs: seq<Value>, v: Value)
    ensures NamesAll(fs + [v]) == NamesAll(fs) + Names(v)
    decreases |fs|
  {
    if |fs| == 0 {
      assert ([] + [v])[1..] == [];
    } else {
      assert (fs + [v])[1..] == fs[1..] + [v];
      NamesAllAppend(fs[1..], v);
    }
  }

  /** The walk throws: it reaches a `null` as a field value of an object it
      enumerates (or is given one), and `Object.values(null)` raises a
      TypeError. Nothing below a dynamic expression is enumerated. */
  predicate Throws(v: Value)
    ensures Throws(v) ==> !IsDynamic(v) && !v.Scalar?
    decreases v
  {
    match v
    case Scalar => false
    case Null => true
    case Object(k, st, c, fs) => !(k == 4 && !st) && ThrowsAny(fs)
  }

  /** Walking the field values in order throws at one of them. */
  predicate ThrowsAny(fs: seq<Value>)
    decreases fs
  {
    |fs| > 0 && (Throws(fs[0]) || ThrowsAny(fs[1..]))
  }

  lemma {:induction false} ThrowsAnyAppend(fs: seq<Value>, v: Value)
    ensures ThrowsAny(fs + [v]) <==> ThrowsAny(fs) || Throws(v)
    decreases |fs|
  {
    var all := fs + [v];
    if |fs| == 0 {
      assert all[1..] == [];
    } else {
      assert all[0] == fs[0];
      assert all[1..] == fs[1..] + [v];
      ThrowsAnyAppend(fs[1..], v);
    }
  }

  /** A walk that throws on a prefix of the fields throws on all of them. */
  lemma {:induction false} ThrowsAnyPrefix(fs: seq<Value>, n: nat)
    requires n <= |fs|
    ensures ThrowsAny(fs[..n]) ==> ThrowsAny(fs)
  {
    ThrowsAnySome(fs[..n]);
    ThrowsAnySome(fs);
    if ThrowsAny(fs[..n]) {
      var i :| 0 <= i < n && Throws(fs[..n][i]);
      assert Throws(fs[i]);
    }
  }

  /** The walk over the fields throws exactly when some field throws. */
  lemma {:induction false} ThrowsAnySome(fs: seq<Value>)
    ensures ThrowsAny(fs) <==> exists i :: 0 <= i < |fs| && Throws(fs[i])
    decreases |fs|
  {
    if |fs| > 0 {
      ThrowsAnySome(fs[1..]);
      if ThrowsAny(fs[1..]) {
        var i :| 0 <= i < |fs| - 1 && Throws(fs[1..][i]);
        assert Throws(fs[i + 1]);
      }
      if exists i :: 0 <= i < |fs| && Throws(fs[i]) {
        var i :| 0 <= i < |fs| && Throws(fs[i]);
        if i > 0 {
          assert Throws(fs[1..][i - 1]);
        }
      }
    }
  }

  /** `set.add(x)` on a JavaScript `Set`, which keeps insertion order. */
  function Add(acc: seq<string>, x: string): seq<string> {
    if x in acc then acc else acc + [x]
  }

  /** Adding each of `xs` in turn. What the set held is kept, in place, at
      its front, and at most one name is added per name given. */
  function AddEach(acc: seq<string>, xs: seq<string>): (r: seq<string>)
    ensures acc <= r
    ensures |r| <= |acc| + |xs|
    decreases |xs|
  {
    if |xs| == 0 then acc else AddEach(Add(acc, xs[0]), xs[1..])
  }

  lemma {:induction false} AddEachSingle(acc: seq<string>, x: string)
    ensures AddEach(acc, [x]) == Add(acc, x)
  {
    assert [x][1..] == [];
  }

  lemma {:induction false} AddEachNone(acc: seq<string>)
    ensures AddEach(acc, []) == acc
  {
  }

  predicate Distinct(xs: seq<string>) {
    forall i, j :: 0 <= i < j < |xs| ==> xs[i] != xs[j]
  }

  lemma {:induction false} AddEachAppend(acc: seq<string>, xs: seq<string>, ys: seq<string>)
    ensures AddEach(acc, xs + ys) == AddEach(AddEach(acc, xs), ys)
    decreases |xs|
  {
    if |xs| == 0 {
      assert xs + ys == ys;
    } else {
      assert (xs + ys)[0] == xs[0];
      assert (xs + ys)[1..] == xs[1..] + ys;
      AddEachAppend(Add(acc, xs[0]), xs[1..], ys);
    }
  }

  /** The set holds exactly what it held before and what was added. */
  lemma {:induction false} AddEachMembers(acc: seq<string>, xs: seq<string>)
    ensures forall x :: x in AddEach(acc, xs) <==> x in acc || x in xs
    decreases |xs|
  {
    if |xs| > 0 {
      AddEachMembers(Add(acc, xs[0]), xs[1..]);
      assert xs == [xs[0]] + xs[1..];
    }
  }

  /** Each name appears at most once. */
  lemma {:induction false} AddEachDistinct(acc: seq<string>, xs: seq<string>)
    requires Distinct(acc)
    ensures Distinct(AddEach(acc, xs))
    decreases |xs|
  {
    if |xs| > 0 {
      AddEachDistinct(Add(acc, xs[0]), xs[1..]);
    }
  }

  /** A static expression, or any node that is not an expression, adds
      nothing of its own content: only what its fields add. */
  lemma {:induction false} NonDynamicAddsOnlyFields(v: Value)
    requires v.Object? && !IsDynamic(v)
    ensures Names(v) == NamesAll(v.fields)
    ensures Throws(v) <==> exists i :: 0 <= i < |v.fields| && Throws(v.fields[i])
  {
    ThrowsAnySome(v.fields);
  }

  /** A dynamic expression adds exactly its root, and its own fields are
      never visited (so a `null` below it does not throw). */
  lemma {:induction false} DynamicFieldsNotVisited(v: Value)
    requires IsDynamic(v)
    ensures Names(v) == [Root(v.content)]
    ensures !Throws(v)
  {
  }
}
