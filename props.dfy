/** Props normalisation and serialisation inside `replaceAll` in
    src/command/index.ts: the loop that builds `{require, type, default?}`
    for every declared prop, and `stringifyObj`, which renders such an object
    as object-literal text. */
module Props {
  import opened Text

  /** One entry of `tree.props`: its `required` and `type` values, `None`
      standing for `undefined`. */
  datatype PropDecl = PropDecl(required: Option<bool>, typeName: Option<string>)

  /** A value `stringifyObj` renders: a string (interpolated as it is), a
      boolean, or a nested object given by its entries in key order. */
  datatype Literal =
    | Raw(text: string)
    | Flag(flag: bool)
    | Record(entries: seq<Field>)

  /** One `key: value` entry of an object. */
  datatype Field = Field(key: string, value: Literal)

  /** The keys of an object, in order. */
  function Keys(es: seq<Field>): (ks: seq<string>)
    ensures |ks| == |es|
    ensures forall i :: 0 <= i < |es| ==> ks[i] == es[i].key
  {
    seq(|es|, i requires 0 <= i < |es| => es[i].key)
  }

  /** The names of `tree.props`, in order. */
  function PropNames(props: seq<(string, PropDecl)>): (ks: seq<string>)
    ensures |ks| == |props|
    ensures forall i :: 0 <= i < |props| ==> ks[i] == props[i].0
  {
    seq(|props|, i requires 0 <= i < |props| => props[i].0)
  }

  /** `String(propsVal.type)`. */
  function TypeText(t: Option<string>): string {
    match t
    case None => "undefined"
    case Some(s) => s
  }

  /** `tree.propDefaultNodes[key]` is truthy: present and not the empty string. */
  predicate HasDefault(defaults: map<string, string>, key: string) {
    key in defaults && defaults[key] != ""
  }

  /** The object the loop stores under `props[key]`: two entries, and a
      third exactly when the default node is truthy. */
  function Normalised(decl: PropDecl, defaults: map<string, string>, key: string): (r: Literal)
    ensures r.Record?
    ensures |r.entries| == 3 <==> HasDefault(defaults, key)
    ensures |r.entries| >= 2
  {
    Record([Field("require", Flag(decl.required == Some(true))),
            Field("type", Raw(Capitalize(TypeText(decl.typeName))))]
           + (if HasDefault(defaults, key) then [Field("default", Raw(defaults[key]))] else []))
  }

  /** The whole `props` object the loop builds. */
  function NormalisedAll(props: seq<(string, PropDecl)>, defaults: map<string, string>): seq<Field> {
    seq(|props|, i requires 0 <= i < |props| => Field(props[i].0, Normalised(props[i].1, defaults, props[i].0)))
  }

  /** The loop over `Object.keys(tree.props)`. `tree.props` is an object, so
      its keys are distinct and each `props[key] = ...` adds a new entry. */
  method NormaliseProps(props: seq<(string, PropDecl)>, defaults: map<string, string>)
    returns (out: seq<Field>)
    ensures Keys(out) == PropNames(props)
    ensures forall i :: 0 <= i < |out| ==> out[i].value == Normalised(props[i].1, defaults, props[i].0)
  {
    out := [];
    for i := 0 to |props|
      invariant |out| == i
      invariant forall j :: 0 <= j < i ==> out[j] == Field(props[j].0, Normalised(props[j].1, defaults, props[j].0))
    {
      var key := props[i].0;
      var propsVal := props[i].1;
      var fields := [Field("require", Flag(propsVal.required == Some(true))),
                     Field("type", Raw(Capitalize(TypeText(propsVal.typeName))))];
      if HasDefault(defaults, key) {
        fields := fields + [Field("default", Raw(defaults[key]))];
      }
      assert Record(fields) == Normalised(propsVal, defaults, key);
      out := out + [Field(key, Record(fields))];
    }
  }

  /** What a normalised prop holds: `require` is `required || false`,
      `type` is the type text with its first character upper-cased and the
      rest unchanged, and `default` is there exactly when the default node
      is truthy, holding that node's text. */
  lemma {:induction false} NormalisedFields(decl: PropDecl, defaults: map<string, string>, key: string)
    ensures var v := Normalised(decl, defaults, key);
      && v.Record?
      && Keys(v.entries) == (if HasDefault(defaults, key) then ["require", "type", "default"] else ["require", "type"])
      && v.entries[0].value == Flag(decl.required == Some(true))
      && v.entries[1].value.Raw?
      && |v.entries[1].value.text| == |TypeText(decl.typeName)|
      && (|TypeText(decl.typeName)| > 0 ==>
            v.entries[1].value.text[0] == UpperChar(TypeText(decl.typeName)[0])
            && v.entries[1].value.text[1..] == TypeText(decl.typeName)[1..])
      && (HasDefault(defaults, key) ==> v.entries[2].value == Raw(defaults[key]))
  {
    var v := Normalised(decl, defaults, key);
    if HasDefault(defaults, key) {
      assert Keys(v.entries) == ["require", "type", "default"];
    } else {
      assert Keys(v.entries) == ["require", "type"];
    }
  }

  /** `${value}` and `stringifyObj(value)`: the text `stringifyObj` gives.
      An object is rendered between braces. */
  function Render(v: Literal): (r: string)
    ensures v.Record? ==> |r| >= 2 && r[0] == '{' && r[|r| - 1] == '}'
    decreases v
  {
    match v
    case Raw(t) => t
    case Flag(b) => if b then "true" else "false"
    case Record(es) => "{" + RenderEntries(es) + "}"
  }

  /** The `key: value,` piece of one entry. */
  function Piece(e: Field): string
    decreases e, 1
  {
    e.key + ": " + Render(e.value) + ","
  }

  /** The `key: value,` pieces, in entry order. */
  function RenderEntries(es: seq<Field>): string
    decreases es
  {
    if |es| == 0 then "" else Piece(es[0]) + RenderEntries(es[1..])
  }

  lemma {:induction false} RenderEntriesAppend(es: seq<Field>, e: Field)
    ensures RenderEntries(es + [e]) == RenderEntries(es) + Piece(e)
    decreases |es|
  {
    var all := es + [e];
    if |es| == 0 {
      assert all[1..] == [];
    } else {
      assert all[0] == es[0];
      assert all[1..] == es[1..] + [e];
      RenderEntriesAppend(es[1..], e);
      ConcatAssoc(Piece(es[0]), RenderEntries(es[1..]), Piece(e));
    }
  }

  /** `stringifyObj`: accumulates `key: value,` for each entry, rendering a
      nested object by a recursive call, and wraps the whole in braces. */
  method StringifyObj(obj: seq<Field>) returns (s: string)
    ensures s == Render(Record(obj))
    decreases obj
  {
    var all := "";
    for i := 0 to |obj|
      invariant all == RenderEntries(obj[..i])
    {
      var key := obj[i].key;
      var value := obj[i].value;
      var str := match value
        case Raw(t) => t
        case Flag(b) => if b then "true" else "false"
        case Record(_) => "";
      if value.Record? {
        str := StringifyObj(value.entries);
      }
      var piece := key + ": " + str + ",";
      assert piece == Piece(obj[i]);
      RenderEntriesAppend(obj[..i], obj[i]);
      assert obj[..i + 1] == obj[..i] + [obj[i]];
      all := all + piece;
    }
    assert obj[..|obj|] == obj;
    s := "{" + all + "}";
  }

  lemma {:induction false} EmptyObjectRendersBraces()
    ensures Render(Record([])) == "{}"
  {
  }

  // Reading the rendered text back. The parser below accepts exactly the
  // shape `stringifyObj` produces, so rendering followed by parsing gives
  // back the object, up to booleans becoming their text.

  /** A key the parser can delimit: no ':' and no '}'. */
  predicate PlainKey(k: string) {
    ':' !in k && '}' !in k
  }

  /** A scalar text the parser can delimit: no ',' and not starting with '{'. */
  predicate PlainText(t: string) {
    ',' !in t && (|t| == 0 || t[0] != '{')
  }

  predicate Plain(v: Literal)
    decreases v
  {
    match v
    case Raw(t) => PlainText(t)
    case Flag(_) => true
    case Record(es) => PlainEntries(es)
  }

  predicate PlainEntries(es: seq<Field>)
    decreases es
  {
    |es| == 0 || (PlainKey(es[0].key) && Plain(es[0].value) && PlainEntries(es[1..]))
  }

  /** What the rendered text shows of a value: a boolean becomes its text. */
  function Shown(v: Literal): Literal
    decreases v
  {
    match v
    case Raw(t) => Raw(t)
    case Flag(b) => Raw(if b then "true" else "false")
    case Record(es) => Record(ShownEntries(es))
  }

  function ShownEntries(es: seq<Field>): seq<Field>
    decreases es
  {
    if |es| == 0 then [] else [Field(es[0].key, Shown(es[0].value))] + ShownEntries(es[1..])
  }

  /** Reads one value: an object if it starts with '{', otherwise the text up
      to the next ','. Returns the value and the text after it. */
  function ParseValue(s: string): (r: Option<(Literal, string)>)
    ensures r.Some? ==> |r.value.1| <= |s|
    decreases |s|
  {
    if |s| > 0 && s[0] == '{' then
      match ParseEntries(s[1..])
      case None => None
      case Some(p) => Some((Record(p.0), p.1))
    else
      match IndexOf(s, ",", 0)
      case None => None
      case Some(n) => Some((Raw(s[..n]), s[n..]))
  }

  /** Reads `key: value,` entries up to and including the closing '}'. */
  function ParseEntries(s: string): (r: Option<(seq<Field>, string)>)
    ensures r.Some? ==> |r.value.1| < |s|
    decreases |s|
  {
    if |s| > 0 && s[0] == '}' then Some(([], s[1..]))
    else
      match IndexOf(s, ":", 0)
      case None => None
      case Some(n) =>
        if !(n + 2 <= |s| && s[n..n + 2] == ": ") then None
        else
          match ParseValue(s[n + 2..])
          case None => None
          case Some(p) =>
            if !(|p.1| > 0 && p.1[0] == ',') then None
            else
              match ParseEntries(p.1[1..])
              case None => None
              case Some(q) => Some(([Field(s[..n], p.0)] + q.0, q.1))
  }

  lemma {:induction false} ValueRoundTrip(v: Literal, rest: string)
    requires Plain(v)
    requires !v.Record? ==> |rest| > 0 && rest[0] == ','
    ensures ParseValue(Render(v) + rest) == Some((Shown(v), rest))
    decreases v
  {
    var s := Render(v) + rest;
    match v
    case Record(es) =>
      assert s[1..] == RenderEntries(es) + "}" + rest;
      EntriesRoundTrip(es, rest);
    case Raw(t) =>
      ScalarRoundTrip(t, rest);
    case Flag(b) =>
      ScalarRoundTrip(if b then "true" else "false", rest);
  }

  lemma {:induction false} ScalarRoundTrip(t: string, rest: string)
    requires PlainText(t)
    requires |rest| > 0 && rest[0] == ','
    ensures ParseValue(t + rest) == Some((Raw(t), rest))
  {
    var s := t + rest;
    assert s[|t|] == ',';
    assert s[..|t|] == t;
    IndexOfChar(s, ',', |t|);
    assert s[|t|..] == rest;
  }

  lemma {:induction false} EntriesRoundTrip(es: seq<Field>, rest: string)
    requires PlainEntries(es)
    ensures ParseEntries(RenderEntries(es) + "}" + rest) == Some((ShownEntries(es), rest))
    decreases es
  {
    var s := RenderEntries(es) + "}" + rest;
    if |es| == 0 {
      assert s == "}" + rest;
      assert s[1..] == rest;
    } else {
      var k, v := es[0].key, es[0].value;
      var more := RenderEntries(es[1..]) + "}" + rest;
      var after := "," + more;
      assert s == Piece(es[0]) + more;
      assert Piece(es[0]) + more == k + ": " + (Render(v) + after);
      assert after[1..] == more;
      ValueRoundTrip(v, after);
      EntriesRoundTrip(es[1..], rest);
      EntryStep(k, Render(v), after, Shown(v), ShownEntries(es[1..]), rest);
    }
  }

  /** One entry: the key up to the ':', the value, the ',' and the
      entries after it. */
  lemma {:induction false} EntryStep(k: string, text: string, after: string, lit: Literal, more: seq<Field>, rest: string)
    requires PlainKey(k)
    requires ParseValue(text + after) == Some((lit, after))
    requires |after| > 0 && after[0] == ','
    requires ParseEntries(after[1..]) == Some((more, rest))
    ensures ParseEntries(k + ": " + (text + after)) == Some(([Field(k, lit)] + more, rest))
  {
    var s := k + ": " + (text + after);
    var n := |k|;
    if n > 0 {
      assert s[0] == k[0];
    } else {
      assert s[0] == ':';
    }
    assert s[n] == ':' && s[n + 1] == ' ';
    assert s[..n] == k;
    IndexOfChar(s, ':', n);
    assert s[n..n + 2] == ": ";
    assert s[n + 2..] == text + after;
  }

  /** Parsing the rendering of an object gives the object back. */
  lemma {:induction false} RenderRoundTrip(es: seq<Field>)
    requires PlainEntries(es)
    ensures ParseValue(Render(Record(es))) == Some((Record(ShownEntries(es)), ""))
  {
    EntriesRoundTrip(es, "");
    assert Render(Record(es)) + "" == Render(Record(es));
    assert Render(Record(es))[1..] == RenderEntries(es) + "}" + "";
  }
}
