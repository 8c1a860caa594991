/** `start` in src/command/index.ts, from the parsed template and the
    transformer's output to the text handed to the formatter. The
    conversion's two pieces of state, the set of template names (`result`)
    and the generated text (`resultStr`), are the fields of `Conversion`.
    Its methods are the inner functions that update them, and `Start` runs
    them in the source's order. */
module Command {
  import opened Text
  import opened Template
  import opened Symbols
  import opened Props
  import opened Script
  import opened Imports

  /** What the transformer reports about the component: its output text
      (absent when it produced none), the computed properties, methods and
      refs it found (an absent table is empty), the props in declaration
      order, the text of each prop default, and whether `$emit` is used. */
  datatype Tree = Tree(
    transformed: Option<string>,
    computeds: Table,
    methods: Table,
    refs: Table,
    props: seq<(string, PropDecl)>,
    propDefaultNodes: map<string, string>,
    usesEmit: bool)

  /** The merged declaration table `filterData` consults. */
  function TotalData(tree: Tree): Table {
    Merged(tree.computeds, tree.methods, tree.refs)
  }

  /** The names that end up in the return block: the template's names, in
      first-use order, that the tree declares. */
  function ReturnedNames(tree: Tree, template: Value): (r: seq<string>)
    ensures Subsequence(r, AddEach([], Names(template)))
  {
    KeptInOrder(AddEach([], Names(template)), TotalData(tree));
    Kept(AddEach([], Names(template)), TotalData(tree))
  }

  /** `replaceAll` for a given list of names: without transformer output
      it gives the empty text. */
  function Rewritten(tree: Tree, names: seq<string>): (r: string)
    ensures tree.transformed.None? ==> r == ""
  {
    var props := NormalisedAll(tree.props, tree.propDefaultNodes);
    assert tree.transformed.None? ==>
      && WrapBody("", PropsPrefix(Render(Record(props))), WrapSuffix) == ""
      && WrapBody("", PlainPrefix, WrapSuffix) == ""
      && EmitCalls("") == "";
    EmitRewritten(Wrapped(Draft(tree.transformed, names), |tree.props| > 0, Render(Record(props))), tree.usesEmit)
  }

  /** The text `start` hands to the formatter. With one import or none the
      move changes nothing. */
  function Converted(tree: Tree, template: Value): (r: string)
    ensures var s := Rewritten(tree, ReturnedNames(tree, template)); |ImportLines(s)| <= 1 ==> r == s
  {
    Consolidated(Rewritten(tree, ReturnedNames(tree, template)))
  }

  /** The return block lists every name the template uses and the tree
      declares, and nothing else, each exactly once. */
  lemma {:induction false} ReturnedNamesAreDeclaredUses(tree: Tree, template: Value)
    ensures forall x :: x in ReturnedNames(tree, template) <==> x in Names(template) && Declared(TotalData(tree), x)
    ensures Distinct(ReturnedNames(tree, template))
  {
    var used := AddEach([], Names(template));
    AddEachMembers([], Names(template));
    AddEachDistinct([], Names(template));
    KeptMembers(used, TotalData(tree));
    KeptDistinct(used, TotalData(tree));
  }

  /** The names the return block lists as line 104 is written, where the
      lookup also finds the members inherited from `Object.prototype`. */
  function ReturnedNamesAsWritten(tree: Tree, template: Value): (r: seq<string>)
    ensures Subsequence(r, AddEach([], Names(template)))
  {
    KeptInOrder(AddEach([], Names(template)), Visible(TotalData(tree)));
    KeptAsWritten(AddEach([], Names(template)), TotalData(tree))
  }

  /** The text `start` hands to the formatter with the filter as written.
      With one import or none the move changes nothing. */
  function ConvertedAsWritten(tree: Tree, template: Value): (r: string)
    ensures var s := Rewritten(tree, ReturnedNamesAsWritten(tree, template)); |ImportLines(s)| <= 1 ==> r == s
  {
    Consolidated(Rewritten(tree, ReturnedNamesAsWritten(tree, template)))
  }

  /** As written, the return block lists, once each, the names the template
      uses for which the object read finds a truthy value. */
  lemma {:induction false} ReturnedNamesAsWrittenAreVisibleUses(tree: Tree, template: Value)
    ensures forall x :: x in ReturnedNamesAsWritten(tree, template) <==>
                          x in Names(template) && LooksUpTruthy(TotalData(tree), x)
    ensures Distinct(ReturnedNamesAsWritten(tree, template))
  {
    var used := AddEach([], Names(template));
    AddEachMembers([], Names(template));
    AddEachDistinct([], Names(template));
    KeptAsWrittenMembers(used, TotalData(tree));
    KeptAsWrittenInOrder(used, TotalData(tree));
  }

  /** When every name the template uses is declared or is not an inherited
      member, the conversion as written and the intended one give the same
      text. */
  lemma {:induction false} ConvertedAsWrittenAgrees(tree: Tree, template: Value)
    requires forall x :: x in Names(template) ==> x in TotalData(tree) || x !in InheritedMembers
    ensures ReturnedNamesAsWritten(tree, template) == ReturnedNames(tree, template)
    ensures ConvertedAsWritten(tree, template) == Converted(tree, template)
  {
    var used := AddEach([], Names(template));
    AddEachMembers([], Names(template));
    assert forall i :: 0 <= i < |used| ==> used[i] in Names(template);
    KeptAsWrittenAgrees(used, TotalData(tree));
  }

  /** With no transformer output the result is the empty text. */
  lemma {:induction false} NothingTransformedGivesEmpty(tree: Tree, template: Value)
    requires tree.transformed.None?
    ensures Converted(tree, template) == ""
  {
    assert AllMatches("", 0) == [];
  }

  /** One more field value walked: the accumulated set extends by what the
      value adds. */
  lemma {:induction false} WalkStep(acc: seq<string>, fs: seq<Value>, i: nat, before: seq<string>, after: seq<string>)
    requires i < |fs|
    requires before == AddEach(acc, NamesAll(fs[..i]))
    requires after == AddEach(before, Names(fs[i]))
    requires !ThrowsAny(fs[..i]) && !Throws(fs[i])
    ensures after == AddEach(acc, NamesAll(fs[..i + 1]))
    ensures !ThrowsAny(fs[..i + 1])
  {
    NamesAllAppend(fs[..i], fs[i]);
    AddEachAppend(acc, NamesAll(fs[..i]), Names(fs[i]));
    ThrowsAnyAppend(fs[..i], fs[i]);
    assert fs[..i + 1] == fs[..i] + [fs[i]];
  }

  /** A field value that throws makes the whole walk over the fields throw. */
  lemma {:induction false} WalkThrows(fs: seq<Value>, i: nat)
    requires i < |fs| && Throws(fs[i])
    ensures ThrowsAny(fs)
  {
    ThrowsAnySome(fs);
  }

  class Conversion {
    const tree: Tree
    /** The template names: a set while the template is walked, then the
        filtered list. */
    var result: seq<string>
    var resultStr: string

    constructor (tree: Tree)
      ensures this.tree == tree && result == [] && resultStr == ""
    {
      this.tree := tree;
      result := [];
      resultStr := "";
    }

    /** `findVarNode`: adds the root of every dynamic expression of the tree
        to the set, in walk order. It fails (the walk throws) exactly when an
        enumerated object holds a `null`. */
    method FindVarNode(target: Value) returns (ok: bool)
      modifies this
      ensures ok == !Throws(target)
      ensures ok ==> result == AddEach(old(result), Names(target))
      ensures resultStr == old(resultStr)
      decreases target
    {
      if IsDynamic(target) {
        DynamicFieldsNotVisited(target);
        AddEachSingle(result, Root(target.content));
        result := Add(result, Root(target.content));
        return true;
      }
      if target.Null? {
        return false;
      }
      if target.Scalar? {
        return true;
      }
      var fs := target.fields;
      var i := 0;
      while i < |fs|
        invariant 0 <= i <= |fs|
        invariant result == AddEach(old(result), NamesAll(fs[..i]))
        invariant !ThrowsAny(fs[..i])
        invariant resultStr == old(resultStr)
      {
        var node := fs[i];
        ghost var before := result;
        if IsDynamic(node) {
          DynamicFieldsNotVisited(node);
          AddEachSingle(result, Root(node.content));
          result := Add(result, Root(node.content));
        } else if node.Scalar? {
          AddEachNone(result);
          assert !Throws(node);
        } else {
          var fine := FindVarNode(node);
          if !fine {
            WalkThrows(fs, i);
            return false;
          }
        }
        WalkStep(old(result), fs, i, before, result);
        i := i + 1;
      }
      assert fs[..|fs|] == fs;
      return true;
    }

    /** `filterData`: keeps, in order, the names the merged table declares. */
    method FilterData()
      modifies this
      ensures result == Kept(old(result), TotalData(tree))
      ensures resultStr == old(resultStr)
    {
      result := FilterDeclared(result, TotalData(tree));
    }

    /** `replaceAll`: builds the props object and rewrites the transformer's
        output around the names. */
    method ReplaceAll()
      modifies this
      ensures resultStr == Rewritten(tree, result)
      ensures result == old(result)
    {
      var props := NormaliseProps(tree.props, tree.propDefaultNodes);
      assert props == NormalisedAll(tree.props, tree.propDefaultNodes);
      var propsText := StringifyObj(props);
      var s := Draft(tree.transformed, result);
      s := Wrapped(s, |tree.props| > 0, propsText);
      resultStr := EmitRewritten(s, tree.usesEmit);
    }

    /** `moveImport`: with two imports or more, moves them all to the line
        after the script tag. */
    method MoveImport()
      modifies this
      ensures resultStr == Consolidated(old(resultStr))
      ensures result == old(result)
    {
      var pairs := GetMatchImport(resultStr);
      var importArr := ImportLinesOf(pairs);
      if |importArr| > 1 {
        var resultArr := Split(Stripped(resultStr, 0), '\n');
        var scriptIndex := FindLineWith(resultArr, "<script");
        assert Moved(resultArr, importArr)
            == Join(resultArr[..scriptIndex + 1] + [Join(importArr, "\n")] + resultArr[scriptIndex + 1..], "\n");
        resultArr := resultArr[..scriptIndex + 1] + [Join(importArr, "\n")] + resultArr[scriptIndex + 1..];
        resultStr := Join(resultArr, "\n");
      }
    }
  }

  /** `start` from the parse to the formatter: walks the template, filters
      the names, rewrites the text and moves the imports. It fails exactly
      when the walk throws. */
  method Start(tree: Tree, template: Value) returns (ok: bool, output: string)
    ensures ok == !Throws(template)
    ensures ok ==> output == Converted(tree, template)
    ensures ok && (forall x :: x in Names(template) ==> x in TotalData(tree) || x !in InheritedMembers)
      ==> output == ConvertedAsWritten(tree, template)
  {
    var c := new Conversion(tree);
    ok := c.FindVarNode(template);
    output := "";
    if ok {
      c.FilterData();
      c.ReplaceAll();
      c.MoveImport();
      output := c.resultStr;
      if forall x :: x in Names(template) ==> x in TotalData(tree) || x !in InheritedMembers {
        ConvertedAsWrittenAgrees(tree, template);
      }
    }
  }
}
