/** The symbol reconciler (`filterData` in src/command/index.ts): the names
    the template uses are kept only when the merged table of computed
    properties, methods and refs holds a truthy value for them. */
module Symbols {
  import opened Template

  /** A declaration table: each name with the truthiness of the value stored
      under it. An absent table (`tree.computeds || {}`) is the empty map. */
  type Table = map<string, bool>

  /** `{...computeds, ...methods, ...refs}`: a later table wins on a shared
      name, which Dafny's map union does as well. */
  function Merged(computeds: Table, methods: Table, refs: Table): (m: Table)
    ensures m.Keys == computeds.Keys + methods.Keys + refs.Keys
    ensures forall x :: x in refs ==> m[x] == refs[x]
    ensures forall x :: x in methods && x !in refs ==> m[x] == methods[x]
    ensures forall x :: x in computeds && x !in methods && x !in refs ==> m[x] == computeds[x]
  {
    computeds + methods + refs
  }

  /** The name is declared with a truthy value in the merged table. */
  predicate Declared(total: Table, key: string) {
    key in total && total[key]
  }

  /** `filter(key => totalData[key])`, keeping only declared names. */
  function Kept(names: seq<string>, total: Table): (r: seq<string>)
    ensures |r| <= |names|
    ensures forall i :: 0 <= i < |r| ==> Declared(total, r[i])
    decreases |names|
  {
    if |names| == 0 then []
    else (if Declared(total, names[0]) then [names[0]] else []) + Kept(names[1..], total)
  }

  /** `xs` is `ys` with some elements left out, the rest in their order. */
  predicate Subsequence(xs: seq<string>, ys: seq<string>)
    decreases |ys|
  {
    if |xs| == 0 then true
    else if |ys| == 0 then false
    else if xs[0] == ys[0] then Subsequence(xs[1..], ys[1..])
    else Subsequence(xs, ys[1..])
  }

  /** Every kept name was extracted and is declared; every extracted,
      declared name is kept. */
  lemma {:induction false} KeptMembers(names: seq<string>, total: Table)
    ensures forall x :: x in Kept(names, total) <==> x in names && Declared(total, x)
    decreases |names|
  {
    if |names| > 0 {
      KeptMembers(names[1..], total);
      assert names == [names[0]] + names[1..];
    }
  }

  /** The kept names keep the set's order. */
  lemma {:induction false} KeptInOrder(names: seq<string>, total: Table)
    ensures Subsequence(Kept(names, total), names)
    decreases |names|
  {
    if |names| > 0 {
      KeptInOrder(names[1..], total);
      var rest := Kept(names[1..], total);
      if Declared(total, names[0]) {
        assert Kept(names, total) == [names[0]] + rest;
        assert ([names[0]] + rest)[1..] == rest;
      } else {
        assert Kept(names, total) == rest;
        SubsequenceSkip(rest, names);
      }
    }
  }

  lemma {:induction false} SubsequenceSkip(xs: seq<string>, ys: seq<string>)
    requires |ys| > 0
    requires Subsequence(xs, ys[1..])
    ensures Subsequence(xs, ys)
    decreases |ys|, 0
  {
    if |xs| > 0 && xs[0] == ys[0] {
      SubsequenceDrop(xs, ys[1..]);
    }
  }

  lemma {:induction false} SubsequenceDrop(xs: seq<string>, ys: seq<string>)
    requires |xs| > 0
    requires Subsequence(xs, ys)
    ensures Subsequence(xs[1..], ys)
    decreases |ys|, 1
  {
    if |ys| > 0 {
      if xs[0] == ys[0] {
        SubsequenceSkip(xs[1..], ys);
      } else {
        SubsequenceDrop(xs, ys[1..]);
        SubsequenceSkip(xs[1..], ys);
      }
    }
  }

  /** Filtering a set gives no duplicates. */
  lemma {:induction false} KeptDistinct(names: seq<string>, total: Table)
    requires Distinct(names)
    ensures Distinct(Kept(names, total))
    decreases |names|
  {
    if |names| > 0 {
      KeptDistinct(names[1..], total);
      KeptMembers(names[1..], total);
      var rest := Kept(names[1..], total);
      if Declared(total, names[0]) {
        assert names[0] !in names[1..];
        assert names[0] !in rest;
        assert Kept(names, total) == [names[0]] + rest;
      }
    }
  }

  /** The loop of `filterData`: walks the set in order, collecting the
      declared names. */
  method FilterDeclared(names: seq<string>, total: Table) returns (kept: seq<string>)
    ensures kept == Kept(names, total)
  {
    kept := [];
    var i := 0;
    while i < |names|
      invariant 0 <= i <= |names|
      invariant kept + Kept(names[i..], total) == Kept(names, total)
    {
      assert names[i..][1..] == names[i + 1..];
      if Declared(total, names[i]) {
        kept := kept + [names[i]];
      }
      i := i + 1;
    }
  }

  // As written, `totalData[key]` is a property read on a plain object, so a
  // name that is not declared but is inherited from `Object.prototype`
  // finds a function there, which is truthy.

  /** The members every plain object inherits from `Object.prototype`. */
  const InheritedMembers: set<string> := {
    "constructor", "hasOwnProperty", "isPrototypeOf", "propertyIsEnumerable",
    "toLocaleString", "toString", "valueOf", "__proto__",
    "__defineGetter__", "__defineSetter__", "__lookupGetter__", "__lookupSetter__"
  }

  /** `!!totalData[key]` as JavaScript evaluates it. */
  predicate LooksUpTruthy(total: Table, key: string)
    ensures Declared(total, key) ==> LooksUpTruthy(total, key)
    ensures key !in InheritedMembers ==> (LooksUpTruthy(total, key) <==> Declared(total, key))
  {
    if key in total then total[key] else key in InheritedMembers
  }

  /** The table a property read on the merged object sees: the declared
      names, and every inherited member not declared, as truthy. */
  function Visible(total: Table): (v: Table)
    ensures forall x :: Declared(v, x) <==> LooksUpTruthy(total, x)
  {
    map x | x in total.Keys + InheritedMembers :: if x in total then total[x] else true
  }

  /** The filter as written, with the inherited members showing through: it
      is the intended filter run against the table the object read sees. */
  function KeptAsWritten(names: seq<string>, total: Table): (r: seq<string>)
    ensures r == Kept(names, Visible(total))
    decreases |names|
  {
    if |names| == 0 then []
    else (if LooksUpTruthy(total, names[0]) then [names[0]] else []) + KeptAsWritten(names[1..], total)
  }

  /** As written, a name survives if and only if it was collected and the
      object read finds a truthy value for it, declared or inherited. */
  lemma {:induction false} KeptAsWrittenMembers(names: seq<string>, total: Table)
    ensures forall x :: x in KeptAsWritten(names, total) <==> x in names && LooksUpTruthy(total, x)
  {
    KeptMembers(names, Visible(total));
  }

  /** As written, the filter keeps the set's order and its distinctness. */
  lemma {:induction false} KeptAsWrittenInOrder(names: seq<string>, total: Table)
    requires Distinct(names)
    ensures Subsequence(KeptAsWritten(names, total), names)
    ensures Distinct(KeptAsWritten(names, total))
  {
    KeptInOrder(names, Visible(total));
    KeptDistinct(names, Visible(total));
  }

  /** A template reading `constructor.name` with nothing declared keeps
      `constructor` as written, which generates `return { constructor }`
      for a variable that does not exist; the intended filter drops it. */
  lemma {:induction false} InheritedNameSurvives()
    ensures KeptAsWritten(["constructor"], map[]) == ["constructor"]
    ensures Kept(["constructor"], map[]) == []
  {
    assert "constructor" in InheritedMembers;
  }

  /** The two filters agree unless an undeclared name is an inherited member. */
  lemma {:induction false} KeptAsWrittenAgrees(names: seq<string>, total: Table)
    requires forall i :: 0 <= i < |names| ==> names[i] in total || names[i] !in InheritedMembers
    ensures KeptAsWritten(names, total) == Kept(names, total)
    decreases |names|
  {
    if |names| > 0 {
      KeptAsWrittenAgrees(names[1..], total);
    }
  }
}
