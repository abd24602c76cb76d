/** The template expander of the build generator (src/buildgen/TemplateExpansion.cpp and MakeGen.cpp): an
    evaluator that keeps its environment in a scope table, against one that passes an environment along. */
module TemplateExpansion {
  import opened ScopeTable

  datatype Option<T> = None | Some(value: T) {
    predicate IsFailure() { None? }
    function PropagateFailure<U>(): Option<U> requires None? { None }
    function Extract(): T requires Some? { value }
  }

  // ---------------------------------------------------------------- elements and their texts

  datatype Attribute = Attribute(name: string, value: string)

  datatype Element = Element(name: string, attributes: seq<Attribute>, innerText: string,
                             children: seq<Element>, outerText: string)

  /** The value of the first attribute of that name. */
  function AttributeValue(attributes: seq<Attribute>, name: string): Option<string> {
    if attributes == [] then None
    else if attributes[0].name == name then Some(attributes[0].value)
    else AttributeValue(attributes[1..], name)
  }

  /** An element's text loses one leading newline. */
  function SkipNewline(text: string): string {
    if |text| > 0 && text[0] == '\n' then text[1..] else text
  }

  /** Does `text` go on with one of the two known entities? Its last character is not really compared. */
  predicate StartsEntity(text: string, first: char) {
    |text| >= 2 && text[0] == first && text[1] == 't'
  }

  function AfterEntity(text: string): string {
    if |text| >= 3 then text[3..] else []
  }

  /** What `expandText` writes: the two entities are replaced and any other ampersand is dropped. */
  function ExpandText(text: string): string
    decreases |text|
  {
    if text == [] then []
    else if text[0] != '&' then [text[0]] + ExpandText(text[1..])
    else if StartsEntity(text[1..], 'l') then "<" + ExpandText(AfterEntity(text[1..]))
    else if StartsEntity(text[1..], 'g') then ">" + ExpandText(AfterEntity(text[1..]))
    else ExpandText(text[1..])
  }

  /** The two characters as entities. */
  function Escape(text: string): string {
    if text == [] then []
    else (if text[0] == '<' then "&lt;" else if text[0] == '>' then "&gt;" else [text[0]]) + Escape(text[1..])
  }

  /** Escaped text comes out as it was, provided it had no ampersand. */
  lemma {:induction false} EscapedTextComesBack(text: string)
    requires '&' !in text
    ensures ExpandText(Escape(text)) == text
  {
    if text != [] {
      EscapedTextComesBack(text[1..]);
      var rest := Escape(text[1..]);
      hide Escape;
      ExpandEntity(text[0], rest);
    }
  }

  lemma ExpandEntity(c: char, rest: string)
    requires c != '&'
    ensures ExpandText("&lt;" + rest) == "<" + ExpandText(rest)
    ensures ExpandText("&gt;" + rest) == ">" + ExpandText(rest)
    ensures ExpandText([c] + rest) == [c] + ExpandText(rest)
  {
    var lt, gt := "&lt;" + rest, "&gt;" + rest;
    assert lt[1..][3..] == rest && gt[1..][3..] == rest && ([c] + rest)[1..] == rest;
  }

  // ---------------------------------------------------------------- what an expansion looks at

  datatype ProjectFile = ProjectFile(path: string, directory: string, name: string, extension: string,
                                     targetExtension: string, targetPath: string)

  /** A file's own target path, or one made up from the directory, the name and the extension. */
  function TargetPath(file: ProjectFile, defaultDir: Option<string>): string {
    if file.targetPath != "" then file.targetPath
    else (if defaultDir.Some? then defaultDir.value else "") + file.name + "." + file.targetExtension
  }

  /** The templates, the project files and the command-line parameters. */
  datatype Context = Context(templates: map<string, Element>, files: seq<ProjectFile>, args: map<string, string>)

  /** Every attribute has to equal the parameter of its name. */
  predicate EvalBoolean(ctx: Context, attributes: seq<Attribute>) {
    forall i :: 0 <= i < |attributes| ==>
      attributes[i].name in ctx.args && ctx.args[attributes[i].name] == attributes[i].value
  }

  /** A file is passed over if it has not the extension asked for, or no target although one is required. */
  predicate Selected(tag: Element, file: ProjectFile) {
    var targetExtension := AttributeValue(tag.attributes, "targetExt");
    && (targetExtension.Some? ==> file.targetExtension == targetExtension.value)
    && (AttributeValue(tag.attributes, "target") == Some("Yes") ==> file.targetExtension != "")
  }

  function FileBindings(tag: Element, file: ProjectFile): seq<Attribute> {
    [ Attribute("sourcePath", file.path), Attribute("directory", file.directory), Attribute("name", file.name),
      Attribute("extension", file.extension), Attribute("target", file.targetExtension),
      Attribute("targetPath", TargetPath(file, AttributeValue(tag.attributes, "targetDir"))) ]
  }

  /** The position of the first `else` among the children from `i` on. */
  function ElseAt(children: seq<Element>, i: nat): (k: nat)
    requires i <= |children|
    ensures i <= k <= |children|
    ensures k < |children| ==> children[k].name == "else"
    ensures forall j :: i <= j < k ==> children[j].name != "else"
    decreases |children| - i
  {
    if i == |children| || children[i].name == "else" then i else ElseAt(children, i + 1)
  }

  // ---------------------------------------------------------------- the environment-passing evaluator

  type Environment = map<string, string>

  function Bind(env: Environment, attributes: seq<Attribute>): Environment
    decreases |attributes|
  {
    if attributes == [] then env else Bind(env[attributes[0].name := attributes[0].value], attributes[1..])
  }

  /** What an element expands to; `None` if template calls nest deeper than `fuel`. */
  function Eval(ctx: Context, fuel: nat, e: Element, env: Environment): Option<string>
    decreases fuel, e, 1
  {
    if e.name == "value" then
      var name := AttributeValue(e.attributes, "name");
      Some(if name.Some? && name.value in env then env[name.value] else "")
    else if e.name in ctx.templates then
      if fuel == 0 then None else Eval(ctx, fuel - 1, ctx.templates[e.name], Bind(env, e.attributes))
    else
      var rest :- EvalChildren(ctx, fuel, e, 0, |e.children|, env);
      Some(ExpandText(SkipNewline(e.innerText)) + rest)
  }

  /** The children from `i` up to `end`, each with the text behind it. */
  function EvalChildren(ctx: Context, fuel: nat, e: Element, i: nat, end: nat, env: Environment): Option<string>
    requires i <= end <= |e.children|
    decreases fuel, e, 0, end - i
  {
    if i == end then Some("")
    else
      var child := e.children[i];
      var first :- EvalTag(ctx, fuel, child, env);
      var rest :- EvalChildren(ctx, fuel, e, i + 1, end, env);
      Some(first + ExpandText(child.outerText) + rest)
  }

  function EvalTag(ctx: Context, fuel: nat, e: Element, env: Environment): Option<string>
    decreases fuel, e, 3
  {
    if e.name == "files" then EvalFiles(ctx, fuel, e, 0, env)
    else if e.name == "if" then EvalIf(ctx, fuel, e, env)
    else Eval(ctx, fuel, e, env)
  }

  /** The tag once for every selected file from `i` on, under the file's bindings. */
  function EvalFiles(ctx: Context, fuel: nat, e: Element, i: nat, env: Environment): Option<string>
    requires i <= |ctx.files|
    decreases fuel, e, 2, |ctx.files| - i
  {
    if i == |ctx.files| then Some("")
    else if !Selected(e, ctx.files[i]) then EvalFiles(ctx, fuel, e, i + 1, env)
    else
      var first :- Eval(ctx, fuel, e, Bind(env, FileBindings(e, ctx.files[i])));
      var rest :- EvalFiles(ctx, fuel, e, i + 1, env);
      Some(first + rest)
  }

  /** What lies before the `else`, or what lies behind it. */
  function EvalIf(ctx: Context, fuel: nat, e: Element, env: Environment): Option<string>
    decreases fuel, e, 1
  {
    var k := ElseAt(e.children, 0);
    if EvalBoolean(ctx, e.attributes) then
      var rest :- EvalChildren(ctx, fuel, e, 0, k, env);
      Some(ExpandText(SkipNewline(e.innerText)) + rest)
    else if k == |e.children| then Some("")
    else
      var rest :- EvalChildren(ctx, fuel, e, k + 1, |e.children|, env);
      Some(ExpandText(SkipNewline(e.children[k].outerText)) + rest)
  }

  // ---------------------------------------------------------------- what the evaluator means

  /** An attribute's value is that of the first of its name. */
  lemma {:induction false} FirstAttribute(attributes: seq<Attribute>, name: string, i: nat)
    requires i <= |attributes| && forall j :: 0 <= j < i ==> attributes[j].name != name
    requires i < |attributes| ==> attributes[i].name == name
    ensures AttributeValue(attributes, name) == if i < |attributes| then Some(attributes[i].value) else None
  {
    if attributes == [] || i == 0 {
    } else {
      FirstAttribute(attributes[1..], name, i - 1);
    }
  }

  /** Binding attributes gives each of their names the value of the last one, and leaves every other name alone. */
  lemma {:induction false} LastBinding(env: Environment, attributes: seq<Attribute>, name: string, i: int)
    requires -1 <= i < |attributes| && forall j :: i < j < |attributes| ==> attributes[j].name != name
    requires i >= 0 ==> attributes[i].name == name
    ensures if i >= 0 then name in Bind(env, attributes) && Bind(env, attributes)[name] == attributes[i].value
            else (name in Bind(env, attributes) <==> name in env) &&
                 (name in env ==> Bind(env, attributes)[name] == env[name])
    decreases |attributes|
  {
    if attributes == [] {
    } else {
      var rest, bound := attributes[1..], env[attributes[0].name := attributes[0].value];
      LastBinding(bound, rest, name, if i > 0 then i - 1 else -1);
    }
  }

  /** One leading newline goes, and nothing else. */
  lemma NewlineSkipped(text: string, c: char)
    ensures SkipNewline("\n" + text) == text && SkipNewline("") == ""
    ensures c != '\n' ==> SkipNewline([c] + text) == [c] + text
  {
    assert ("\n" + text)[1..] == text;
  }

  /** An ampersand that begins no entity is dropped, */
  lemma LoneAmpersand(text: string)
    requires !(|text| >= 2 && text[0] in {'l', 'g'} && text[1] == 't')
    ensures ExpandText("&" + text) == ExpandText(text)
  {
    assert ("&" + text)[1..] == text;
  }

  /** and the last character of one that does may be any. */
  lemma EntityMeans(c: char, text: string)
    ensures ExpandText(['&', 'l', 't', c] + text) == "<" + ExpandText(text)
    ensures ExpandText(['&', 'g', 't', c] + text) == ">" + ExpandText(text)
  {
    hide ExpandText;
    EntityUnfolds('l', c, text);
    EntityUnfolds('g', c, text);
  }

  lemma EntityUnfolds(first: char, c: char, text: string)
    requires first in {'l', 'g'}
    ensures ExpandText(['&', first, 't', c] + text) == (if first == 'l' then "<" else ">") + ExpandText(text)
  {
    var whole := ['&', first, 't', c] + text;
    assert whole[1..][3..] == text;
  }

  /** A value tag stands for the innermost binding of the name it gives, or for nothing. */
  lemma ValueMeans(ctx: Context, fuel: nat, e: Element, env: Environment, i: nat)
    requires e.name == "value" && i < |e.attributes| && e.attributes[i].name == "name"
    requires forall j :: 0 <= j < i ==> e.attributes[j].name != "name"
    ensures var name := e.attributes[i].value;
            Eval(ctx, fuel, e, env) == Some(if name in env then env[name] else "")
  {
    FirstAttribute(e.attributes, "name", i);
  }

  /** A tag that names a template stands for the template, where the tag's attributes are bound. */
  lemma TemplateMeans(ctx: Context, fuel: nat, e: Element, env: Environment)
    requires e.name != "value" && e.name in ctx.templates
    ensures Eval(ctx, fuel + 1, e, env) == Eval(ctx, fuel, ctx.templates[e.name], Bind(env, e.attributes))
  {
  }

  /** The texts of the children, each with the text that follows it. */
  function Interleaved(children: seq<Element>, texts: seq<string>): string
    requires |texts| == |children|
  {
    if children == [] then ""
    else texts[0] + ExpandText(children[0].outerText) + Interleaved(children[1..], texts[1..])
  }

  lemma {:induction false} ChildrenMean(ctx: Context, fuel: nat, e: Element, i: nat, end: nat, env: Environment,
                                        texts: seq<string>)
    requires i <= end <= |e.children| && |texts| == |e.children|
    requires forall k :: i <= k < end ==> EvalTag(ctx, fuel, e.children[k], env) == Some(texts[k])
    ensures EvalChildren(ctx, fuel, e, i, end, env) == Some(Interleaved(e.children[i..end], texts[i..end]))
    decreases end - i
  {
    hide EvalTag, ExpandText;
    if i == end {
    } else {
      ChildrenMean(ctx, fuel, e, i + 1, end, env, texts);
      assert e.children[i..end][1..] == e.children[i + 1..end] && texts[i..end][1..] == texts[i + 1..end];
    }
  }

  /** Any other element stands for its text and its children, each with the text that follows it. */
  lemma PlainMeans(ctx: Context, fuel: nat, e: Element, env: Environment, texts: seq<string>)
    requires e.name != "value" && e.name !in ctx.templates && |texts| == |e.children|
    requires forall k :: 0 <= k < |texts| ==> EvalTag(ctx, fuel, e.children[k], env) == Some(texts[k])
    ensures Eval(ctx, fuel, e, env) == Some(ExpandText(SkipNewline(e.innerText)) + Interleaved(e.children, texts))
  {
    hide EvalTag, ExpandText, EvalChildren, Interleaved;
    ChildrenMean(ctx, fuel, e, 0, |e.children|, env, texts);
    assert e.children[0..|e.children|] == e.children && texts[0..|e.children|] == texts;
  }

  ghost predicate AllParametersMatch(args: map<string, string>, attributes: seq<Attribute>) {
    forall a :: a in attributes ==> a.name in args && args[a.name] == a.value
  }

  /** `k` is where the first `else` is, or the end. */
  ghost predicate FirstElse(children: seq<Element>, k: nat) {
    && k <= |children| && (k < |children| ==> children[k].name == "else")
    && forall j :: 0 <= j < k ==> children[j].name != "else"
  }

  lemma ElseIsThere(children: seq<Element>, k: nat)
    requires FirstElse(children, k)
    ensures ElseAt(children, 0) == k
  {
  }

  lemma {:induction false} SameChildren(ctx: Context, fuel: nat, d: Element, e: Element, i: nat, j: nat, n: nat,
                                        env: Environment)
    requires i + n <= |d.children| && j + n <= |e.children| && d.children[i..i + n] == e.children[j..j + n]
    ensures EvalChildren(ctx, fuel, d, i, i + n, env) == EvalChildren(ctx, fuel, e, j, j + n, env)
    decreases n
  {
    hide EvalTag, ExpandText;
    if n == 0 {
    } else {
      assert d.children[i..i + n][0] == e.children[j..j + n][0];
      assert d.children[i..i + n][1..] == d.children[i + 1..i + n];
      assert e.children[j..j + n][1..] == e.children[j + 1..j + n];
      SameChildren(ctx, fuel, d, e, i + 1, j + 1, n - 1, env);
    }
  }

  /** An `if` whose attributes all equal the parameters of their names stands for what a plain element with its text and
      the children before the first `else` would; */
  lemma IfTrueMeans(ctx: Context, fuel: nat, e: Element, env: Environment, plain: string, k: nat)
    requires e.name == "if" && plain != "value" && plain !in ctx.templates
    requires AllParametersMatch(ctx.args, e.attributes) && FirstElse(e.children, k)
    ensures EvalTag(ctx, fuel, e, env) == Eval(ctx, fuel, e.(name := plain, children := e.children[..k]), env)
  {
    hide EvalChildren, ExpandText;
    ElseIsThere(e.children, k);
    var d := e.(name := plain, children := e.children[..k]);
    assert d.children[0..0 + k] == e.children[0..0 + k];
    SameChildren(ctx, fuel, d, e, 0, 0, k, env);
  }

  /** otherwise for what a plain element with the text behind the `else` and the children behind it would, or for
      nothing if there is no `else`. */
  lemma IfFalseMeans(ctx: Context, fuel: nat, e: Element, env: Environment, plain: string, k: nat)
    requires e.name == "if" && plain != "value" && plain !in ctx.templates
    requires !AllParametersMatch(ctx.args, e.attributes) && FirstElse(e.children, k)
    ensures k == |e.children| ==> EvalTag(ctx, fuel, e, env) == Some("")
    ensures k < |e.children| ==>
              var d := e.(name := plain, innerText := e.children[k].outerText, children := e.children[k + 1..]);
              EvalTag(ctx, fuel, e, env) == Eval(ctx, fuel, d, env)
  {
    hide EvalChildren, ExpandText;
    ElseIsThere(e.children, k);
    if k < |e.children| {
      var d := e.(name := plain, innerText := e.children[k].outerText, children := e.children[k + 1..]);
      var n := |e.children| - (k + 1);
      assert d.children[0..0 + n] == e.children[k + 1..k + 1 + n];
      SameChildren(ctx, fuel, d, e, 0, k + 1, n, env);
    }
  }

  /** Which files are taken: with the target extension asked for, if one is, and with any, if a target is. */
  lemma SelectedMeans(tag: Element, file: ProjectFile)
    ensures Selected(tag, file) <==>
            && (AttributeValue(tag.attributes, "targetExt") in {None, Some(file.targetExtension)})
            && (AttributeValue(tag.attributes, "target") == Some("Yes") ==> file.targetExtension != "")
  {
  }

  /** The six names that describe a file, where its template is expanded; all other names keep their meaning. */
  lemma FileBindingsMean(env: Environment, tag: Element, file: ProjectFile, name: string)
    ensures var b := Bind(env, FileBindings(tag, file));
            && b.Keys == env.Keys + {"sourcePath", "directory", "name", "extension", "target", "targetPath"}
            && b["sourcePath"] == file.path && b["directory"] == file.directory && b["name"] == file.name
            && b["extension"] == file.extension && b["target"] == file.targetExtension
            && b["targetPath"] == TargetPath(file, AttributeValue(tag.attributes, "targetDir"))
            && (name in env && name !in {"sourcePath", "directory", "name", "extension", "target", "targetPath"} ==>
                  b[name] == env[name])
  {
    hide TargetPath, AttributeValue;
    var a := FileBindings(tag, file);
    BindOnce(env, a);
    var b1 := env[a[0].name := a[0].value];
    BindOnce(b1, a[1..]);
    var b2 := b1[a[1].name := a[1].value];
    BindOnce(b2, a[1..][1..]);
    var b3 := b2[a[2].name := a[2].value];
    BindOnce(b3, a[1..][1..][1..]);
    var b4 := b3[a[3].name := a[3].value];
    BindOnce(b4, a[1..][1..][1..][1..]);
    var b5 := b4[a[4].name := a[4].value];
    BindOnce(b5, a[1..][1..][1..][1..][1..]);
  }

  lemma BindOnce(env: Environment, attributes: seq<Attribute>)
    requires attributes != []
    ensures Bind(env, attributes) == Bind(env[attributes[0].name := attributes[0].value], attributes[1..])
    ensures |attributes| == 1 ==> Bind(env, attributes) == env[attributes[0].name := attributes[0].value]
  {
  }

  /** A file's own target path counts; one that is made up is in the directory given, or in none. */
  lemma TargetPathMeans(file: ProjectFile, dir: string)
    ensures file.targetPath != "" ==> TargetPath(file, Some(dir)) == TargetPath(file, None) == file.targetPath
    ensures file.targetPath == "" ==> TargetPath(file, None) == file.name + "." + file.targetExtension
    ensures file.targetPath == "" ==> TargetPath(file, Some(dir)) == dir + (file.name + "." + file.targetExtension)
  {
    assert "" + file.name == file.name;
  }

  /** The texts of the selected files, in the order of the project. */
  function Chosen(tag: Element, files: seq<ProjectFile>, texts: seq<string>): string
    requires |texts| == |files|
  {
    if files == [] then ""
    else (if Selected(tag, files[0]) then texts[0] else "") + Chosen(tag, files[1..], texts[1..])
  }

  lemma {:induction false} FilesMeanFrom(ctx: Context, fuel: nat, e: Element, i: nat, env: Environment,
                                         texts: seq<string>)
    requires i <= |ctx.files| == |texts|
    requires forall k :: i <= k < |texts| && Selected(e, ctx.files[k]) ==>
               Eval(ctx, fuel, e, Bind(env, FileBindings(e, ctx.files[k]))) == Some(texts[k])
    ensures EvalFiles(ctx, fuel, e, i, env) == Some(Chosen(e, ctx.files[i..], texts[i..]))
    decreases |texts| - i
  {
    hide Eval, Selected, FileBindings, Bind;
    if i == |texts| {
    } else {
      FilesMeanFrom(ctx, fuel, e, i + 1, env, texts);
      assert ctx.files[i..][1..] == ctx.files[i + 1..] && texts[i..][1..] == texts[i + 1..];
      var rest := Chosen(e, ctx.files[i + 1..], texts[i + 1..]);
      assert "" + rest == rest;
    }
  }

  /** A files tag stands for the texts of the selected files, one after the other, each expanded where the six names
      describe it. */
  lemma FilesMean(ctx: Context, fuel: nat, e: Element, env: Environment, texts: seq<string>)
    requires e.name == "files" && |texts| == |ctx.files|
    requires forall k :: 0 <= k < |texts| && Selected(e, ctx.files[k]) ==>
               Eval(ctx, fuel, e, Bind(env, FileBindings(e, ctx.files[k]))) == Some(texts[k])
    ensures EvalTag(ctx, fuel, e, env) == Some(Chosen(e, ctx.files, texts))
  {
    hide Eval, Selected, FileBindings, Bind, Chosen, EvalFiles;
    FilesMeanFrom(ctx, fuel, e, 0, env, texts);
    assert ctx.files[0..] == ctx.files && texts[0..] == texts;
  }

  /** Any tag but these two is an element. */
  lemma OtherTags(ctx: Context, fuel: nat, e: Element, env: Environment)
    requires e.name != "files" && e.name != "if"
    ensures EvalTag(ctx, fuel, e, env) == Eval(ctx, fuel, e, env)
  {
  }

  // ---------------------------------------------------------------- the expander

  /** Where the expansion is written. */
  class Output {
    var text: string

    constructor ()
      ensures text == ""
    {
      text := "";
    }

    method Put(s: string)
      modifies this
      ensures text == old(text) + s
    {
      text := text + s;
    }
  }

  /** What stands for the ampersand before position `p`. */
  function EntityText(text: string, p: nat): string
    requires p <= |text|
  {
    if StartsEntity(text[p..], 'l') then "<" else if StartsEntity(text[p..], 'g') then ">" else ""
  }

  /** Where the text goes on behind it. */
  function EntityEnd(text: string, p: nat): (q: nat)
    requires p <= |text|
    ensures p <= q <= |text|
  {
    if StartsEntity(text[p..], 'l') || StartsEntity(text[p..], 'g') then
      if p + 3 <= |text| then p + 3 else |text|
    else p
  }

  /** What has been put out, the stretch since the last ampersand, and the text from `p` on make up the whole. */
  ghost predicate Writing(text: string, done: string, start: nat, p: nat) {
    start <= p <= |text| && done + text[start..p] + ExpandText(text[p..]) == ExpandText(text)
  }

  /** Write a text with its entities replaced, in stretches between ampersands. */
  method WriteText(text: string, out: Output)
    modifies out
    ensures out.text == old(out.text) + ExpandText(text)
  {
    hide *;
    var start: nat, p: nat := 0, 0;
    ghost var before, done := out.text, "";
    StartText(text, before);
    while p < |text|
      invariant start <= p <= |text| && out.text == before + done && Writing(text, done, start, p)
    {
      TextStep(text, done, start, p);
      var c := text[p];
      p := p + 1;
      if c == '&' {
        done := PutEntity(text, start, p, out, before, done);
        p := EntityEnd(text, p);
        start := p;
      }
    }
    out.Put(text[start..p]);
    NoTextLeft(text, before, done, start);
  }

  /** The stretch up to an ampersand and what stands for it. */
  method PutEntity(text: string, start: nat, p: nat, out: Output, ghost before: string, ghost done: string)
    returns (ghost after: string)
    requires start < p <= |text| && out.text == before + done
    modifies out
    ensures after == done + (text[start..p - 1] + EntityText(text, p)) && out.text == before + after
  {
    hide EntityText;
    out.Put(text[start..p - 1]);
    out.Put(EntityText(text, p));
    after := done + (text[start..p - 1] + EntityText(text, p));
    PutBoth(before, done, text[start..p - 1], EntityText(text, p));
  }

  lemma PutBoth(before: string, done: string, a: string, b: string)
    ensures before + done + a + b == before + (done + (a + b))
  {
  }

  lemma StartText(text: string, before: string)
    ensures Writing(text, "", 0, 0) && before + "" == before
  {
    hide ExpandText;
    assert text[0..] == text && text[0..0] == "";
    assert "" + "" + ExpandText(text) == ExpandText(text);
  }

  lemma NoTextLeft(text: string, before: string, done: string, start: nat)
    requires Writing(text, done, start, |text|)
    ensures before + done + text[start..|text|] == before + ExpandText(text)
  {
    assert ExpandText(text[|text|..]) == "";
  }

  /** One character, or one ampersand with what follows it, further. */
  lemma TextStep(text: string, done: string, start: nat, p: nat)
    requires start <= p < |text| && Writing(text, done, start, p)
    ensures if text[p] != '&' then Writing(text, done, start, p + 1)
            else
              var q := EntityEnd(text, p + 1);
              Writing(text, done + (text[start..p] + EntityText(text, p + 1)), q, q)
  {
    hide ExpandText, EntityText, EntityEnd;
    UnfoldText(text, p);
    if text[p] != '&' {
      assert text[start..p] + [text[p]] == text[start..p + 1];
    } else {
      var q := EntityEnd(text, p + 1);
      assert text[q..q] == "";
    }
  }

  lemma UnfoldText(text: string, p: nat)
    requires p < |text|
    ensures ExpandText(text[p..]) ==
              if text[p] != '&' then [text[p]] + ExpandText(text[p + 1..])
              else EntityText(text, p + 1) + ExpandText(text[EntityEnd(text, p + 1)..])
  {
    var rest := text[p..];
    assert rest[1..] == text[p + 1..];
    if p + 4 <= |text| {
      assert text[p + 1..][3..] == text[p + 4..];
    } else {
      assert text[|text|..] == [];
    }
    assert "" + ExpandText(text[p + 1..]) == ExpandText(text[p + 1..]);
  }

  class MakeGen {
    const ctx: Context
    const table: Table

    constructor (ctx: Context, hash: string -> Slot)
      ensures table.Valid() && table.Stack == [] && fresh(table) && fresh(table.values) && this.ctx == ctx
    {
      this.ctx := ctx;
      table := new Table(hash);
    }

    /** Push attributes as bindings of the scope just opened. */
    method PushAll(attributes: seq<Attribute>)
      requires table.Valid()
      modifies table, table.values
      ensures table.Valid() && table.level == old(table.level)
      ensures Extends(table.Stack, old(table.Stack), table.level)
      ensures table.Bindings() == Bind(old(table.Bindings()), attributes)
    {
      ghost var base, goal := table.Stack, Bind(table.Bindings(), attributes);
      assert attributes[0..] == attributes;
      for i := 0 to |attributes|
        invariant table.Valid() && table.level == old(table.level)
        invariant Extends(table.Stack, base, table.level)
        invariant Bind(table.Bindings(), attributes[i..]) == goal
      {
        assert attributes[i..][0] == attributes[i] && attributes[i..][1..] == attributes[i + 1..];
        table.Push(attributes[i].name, attributes[i].value);
      }
    }

    /** Expand an element in a scope of its own: mark, push, expand, revert. */
    method InScope(e: Element, attributes: seq<Attribute>, out: Output, fuel: nat) returns (ok: bool)
      requires table.Valid()
      modifies table, table.values, out
      ensures table.Valid() && old(table.level) <= table.level
      ensures Result(ok, Eval(ctx, fuel, e, Bind(old(table.Bindings()), attributes)), old(out.text), out.text)
      ensures ok ==> table.Stack == old(table.Stack)
      decreases fuel, e, 2
    {
      ghost var base := table.Stack;
      table.LevelsBelow();
      var orgLevel := table.Mark();
      PushAll(attributes);
      ghost var pushed := table.Stack;
      ok := Expand(e, out, fuel);
      if ok {
        KeptIs(pushed, |base|, |pushed|, orgLevel);
        table.Revert(orgLevel);
      }
    }

    /** Expand an element; `ok` fails when template calls nest deeper than `fuel`. */
    method Expand(e: Element, out: Output, fuel: nat) returns (ok: bool)
      requires table.Valid()
      modifies table, table.values, out
      ensures table.Valid() && old(table.level) <= table.level
      ensures Result(ok, Eval(ctx, fuel, e, old(table.Bindings())), old(out.text), out.text)
      ensures ok ==> table.Stack == old(table.Stack)
      decreases fuel, e, 1
    {
      if e.name == "value" {
        var name := AttributeValue(e.attributes, "name");
        if name.Some? {
          var value := table.FindValue(name.value);
          if value != null {
            out.Put(value.value);
          }
        }
        return true;
      }
      if e.name in ctx.templates {
        if fuel == 0 {
          return false;
        }
        ok := InScope(ctx.templates[e.name], e.attributes, out, fuel - 1);
        return;
      }
      WriteText(SkipNewline(e.innerText), out);
      ok := ExpandChildren(e, 0, |e.children|, out, fuel);
    }

    /** The loop over the children: each is expanded and followed by the text behind it. */
    method ExpandChildren(e: Element, from: nat, end: nat, out: Output, fuel: nat) returns (ok: bool)
      requires table.Valid() && from <= end <= |e.children|
      modifies table, table.values, out
      ensures table.Valid() && old(table.level) <= table.level
      ensures Result(ok, EvalChildren(ctx, fuel, e, from, end, old(table.Bindings())), old(out.text), out.text)
      ensures ok ==> table.Stack == old(table.Stack)
      decreases fuel, e, 0
    {
      ghost var env, goal, start := table.Bindings(), EvalChildren(ctx, fuel, e, from, end, table.Bindings()), out.text;
      ghost var done := "";
      PrependNothing(goal);
      for i := from to end
        invariant table.Valid() && old(table.level) <= table.level && table.Stack == old(table.Stack)
        invariant out.text == start + done
        invariant goal == Prepend(done, EvalChildren(ctx, fuel, e, i, end, env))
      {
        var child := e.children[i];
        ChildrenStep(ctx, fuel, e, i, end, env, done);
        var good := ExpandTag(child, out, fuel);
        if !good {
          return false;
        }
        WriteText(child.outerText, out);
        done := done + (EvalTag(ctx, fuel, child, env).value + ExpandText(child.outerText));
      }
      ok := true;
    }

    method ExpandTag(tag: Element, out: Output, fuel: nat) returns (ok: bool)
      requires table.Valid()
      modifies table, table.values, out
      ensures table.Valid() && old(table.level) <= table.level
      ensures Result(ok, EvalTag(ctx, fuel, tag, old(table.Bindings())), old(out.text), out.text)
      ensures ok ==> table.Stack == old(table.Stack)
      decreases fuel, tag, 4
    {
      if tag.name == "files" {
        ok := ExpandFiles(tag, out, fuel);
      } else if tag.name == "if" {
        ok := ExpandIf(tag, out, fuel);
      } else {
        ok := Expand(tag, out, fuel);
      }
    }

    /** Once for every selected project file, in a scope that describes the file. */
    method ExpandFiles(tag: Element, out: Output, fuel: nat) returns (ok: bool)
      requires table.Valid()
      modifies table, table.values, out
      ensures table.Valid() && old(table.level) <= table.level
      ensures Result(ok, EvalFiles(ctx, fuel, tag, 0, old(table.Bindings())), old(out.text), out.text)
      ensures ok ==> table.Stack == old(table.Stack)
      decreases fuel, tag, 3
    {
      ghost var env, goal, start := table.Bindings(), EvalFiles(ctx, fuel, tag, 0, table.Bindings()), out.text;
      ghost var done := "";
      PrependNothing(goal);
      for i := 0 to |ctx.files|
        invariant table.Valid() && old(table.level) <= table.level && table.Stack == old(table.Stack)
        invariant out.text == start + done
        invariant goal == Prepend(done, EvalFiles(ctx, fuel, tag, i, env))
      {
        var file := ctx.files[i];
        FilesStep(ctx, fuel, tag, i, env, done);
        if !Selected(tag, file) {
          continue;
        }
        var good := InScope(tag, FileBindings(tag, file), out, fuel);
        if !good {
          return false;
        }
        done := done + Eval(ctx, fuel, tag, Bind(env, FileBindings(tag, file))).value;
      }
      ok := true;
    }

    method ExpandIf(tag: Element, out: Output, fuel: nat) returns (ok: bool)
      requires table.Valid()
      modifies table, table.values, out
      ensures table.Valid() && old(table.level) <= table.level
      ensures Result(ok, EvalIf(ctx, fuel, tag, old(table.Bindings())), old(out.text), out.text)
      ensures ok ==> table.Stack == old(table.Stack)
      decreases fuel, tag, 1
    {
      var k := 0;
      while k < |tag.children| && tag.children[k].name != "else"
        invariant k <= |tag.children|
        invariant ElseAt(tag.children, k) == ElseAt(tag.children, 0)
      {
        k := k + 1;
      }
      if EvalBoolean(ctx, tag.attributes) {
        WriteText(SkipNewline(tag.innerText), out);
        ok := ExpandChildren(tag, 0, k, out, fuel);
      } else if k == |tag.children| {
        ok := true;
      } else {
        WriteText(SkipNewline(tag.children[k].outerText), out);
        ok := ExpandChildren(tag, k + 1, |tag.children|, out, fuel);
      }
    }

    /** Expand a template by name, on a table as the last expansion left it: the environment-passing
        evaluator's text is written, and the stack and every bucket are as they were. */
    method ExpandTemplate(name: string, out: Output, fuel: nat) returns (ok: bool)
      requires table.Valid()
      modifies table, table.values, out
      ensures table.Valid()
      ensures ok <==> name in ctx.templates && Eval(ctx, fuel, ctx.templates[name], old(table.Bindings())).Some?
      ensures ok ==> out.text == old(out.text) + Eval(ctx, fuel, ctx.templates[name], old(table.Bindings())).value
      ensures ok ==> table.Stack == old(table.Stack) && table.valueStack == old(table.valueStack)
      ensures ok ==> table.values[..] == old(table.values[..])
    {
      if name !in ctx.templates {
        return false;
      }
      ok := Expand(ctx.templates[name], out, fuel);
      if ok {
        table.RestoredExactly();
      }
    }
  }

  /** Whether an expansion came to an end, and what it wrote. */
  ghost predicate Result(ok: bool, expected: Option<string>, before: string, after: string) {
    (ok <==> expected.Some?) && (ok ==> after == before + expected.value)
  }

  function Prepend(done: string, rest: Option<string>): Option<string> {
    if rest.Some? then Some(done + rest.value) else None
  }

  lemma PrependNothing(r: Option<string>)
    ensures Prepend("", r) == r
  {
    if r.Some? {
      assert "" + r.value == r.value;
    }
  }

  lemma PrependMore(done: string, more: string, rest: Option<string>)
    ensures Prepend(done, Prepend(more, rest)) == Prepend(done + more, rest)
  {
    if rest.Some? {
      assert done + (more + rest.value) == done + more + rest.value;
    }
  }

  lemma ChildrenStep(ctx: Context, fuel: nat, e: Element, i: nat, end: nat, env: Environment, done: string)
    requires i < end <= |e.children|
    ensures var first := EvalTag(ctx, fuel, e.children[i], env);
            var all := Prepend(done, EvalChildren(ctx, fuel, e, i, end, env));
            if first.None? then all == None
            else all == Prepend(done + (first.value + ExpandText(e.children[i].outerText)),
                                EvalChildren(ctx, fuel, e, i + 1, end, env))
  {
    var first := EvalTag(ctx, fuel, e.children[i], env);
    if first.Some? {
      PrependMore(done, first.value + ExpandText(e.children[i].outerText), EvalChildren(ctx, fuel, e, i + 1, end, env));
    }
  }

  lemma FilesStep(ctx: Context, fuel: nat, e: Element, i: nat, env: Environment, done: string)
    requires i < |ctx.files|
    ensures var all := Prepend(done, EvalFiles(ctx, fuel, e, i, env));
            var rest := EvalFiles(ctx, fuel, e, i + 1, env);
            if !Selected(e, ctx.files[i]) then all == Prepend(done, rest)
            else
              var first := Eval(ctx, fuel, e, Bind(env, FileBindings(e, ctx.files[i])));
              if first.None? then all == None else all == Prepend(done + first.value, rest)
  {
    var first := Eval(ctx, fuel, e, Bind(env, FileBindings(e, ctx.files[i])));
    if first.Some? {
      PrependMore(done, first.value, EvalFiles(ctx, fuel, e, i + 1, env));
    }
  }

  /** `s` is `base` with values of one level on top. */
  ghost predicate Extends(s: seq<TemplateValue>, base: seq<TemplateValue>, level: int) {
    && |base| <= |s| && s[..|base|] == base
    && forall i :: |base| <= i < |s| ==> s[i].level == level
  }

  // ---------------------------------------------------------------- how much fuel is enough

  /** More fuel does not change what an expansion comes to. */
  lemma {:induction false} MoreFuel(ctx: Context, fuel: nat, e: Element, env: Environment)
    ensures Eval(ctx, fuel, e, env).Some? ==> Eval(ctx, fuel + 1, e, env) == Eval(ctx, fuel, e, env)
    decreases fuel, e, 1
  {
    if e.name != "value" {
      if e.name in ctx.templates {
        if fuel > 0 {
          MoreFuel(ctx, fuel - 1, ctx.templates[e.name], Bind(env, e.attributes));
        }
      } else {
        MoreFuelChildren(ctx, fuel, e, 0, |e.children|, env);
      }
    }
  }

  lemma {:induction false} MoreFuelChildren(ctx: Context, fuel: nat, e: Element, i: nat, end: nat, env: Environment)
    requires i <= end <= |e.children|
    ensures EvalChildren(ctx, fuel, e, i, end, env).Some? ==>
              EvalChildren(ctx, fuel + 1, e, i, end, env) == EvalChildren(ctx, fuel, e, i, end, env)
    decreases fuel, e, 0, end - i
  {
    if i < end {
      MoreFuelTag(ctx, fuel, e.children[i], env);
      MoreFuelChildren(ctx, fuel, e, i + 1, end, env);
    }
  }

  lemma {:induction false} MoreFuelTag(ctx: Context, fuel: nat, e: Element, env: Environment)
    ensures EvalTag(ctx, fuel, e, env).Some? ==> EvalTag(ctx, fuel + 1, e, env) == EvalTag(ctx, fuel, e, env)
    decreases fuel, e, 3
  {
    if e.name == "files" {
      MoreFuelFiles(ctx, fuel, e, 0, env);
    } else if e.name == "if" {
      var k := ElseAt(e.children, 0);
      MoreFuelChildren(ctx, fuel, e, 0, k, env);
      if k < |e.children| {
        MoreFuelChildren(ctx, fuel, e, k + 1, |e.children|, env);
      }
    } else {
      MoreFuel(ctx, fuel, e, env);
    }
  }

  lemma {:induction false} MoreFuelFiles(ctx: Context, fuel: nat, e: Element, i: nat, env: Environment)
    requires i <= |ctx.files|
    ensures EvalFiles(ctx, fuel, e, i, env).Some? ==>
              EvalFiles(ctx, fuel + 1, e, i, env) == EvalFiles(ctx, fuel, e, i, env)
    decreases fuel, e, 2, |ctx.files| - i
  {
    if i < |ctx.files| {
      MoreFuel(ctx, fuel, e, Bind(env, FileBindings(e, ctx.files[i])));
      MoreFuelFiles(ctx, fuel, e, i + 1, env);
    }
  }

  /** Every tag in `e` that names a template names one of a rank below `bound`. */
  ghost predicate UsesBelow(ctx: Context, rank: map<string, nat>, e: Element, bound: nat) {
    && (e.name in ctx.templates ==> e.name in rank && rank[e.name] < bound)
    && forall i :: 0 <= i < |e.children| ==> UsesBelow(ctx, rank, e.children[i], bound)
  }

  /** The templates call each other without a cycle: each uses only templates of a lower rank. */
  ghost predicate Acyclic(ctx: Context, rank: map<string, nat>) {
    forall name :: name in ctx.templates ==>
      name in rank && UsesBelow(ctx, rank, ctx.templates[name], rank[name])
  }

  lemma {:induction false} FuelForElement(ctx: Context, rank: map<string, nat>, fuel: nat, e: Element, env: Environment)
    requires Acyclic(ctx, rank) && UsesBelow(ctx, rank, e, fuel)
    ensures Eval(ctx, fuel, e, env).Some?
    decreases fuel, e, 1
  {
    if e.name != "value" {
      if e.name in ctx.templates {
        RankSuffices(ctx, rank, ctx.templates[e.name], rank[e.name], fuel - 1);
        FuelForElement(ctx, rank, fuel - 1, ctx.templates[e.name], Bind(env, e.attributes));
      } else {
        FuelForChildren(ctx, rank, fuel, e, 0, |e.children|, env);
      }
    }
  }

  lemma {:induction false} RankSuffices(ctx: Context, rank: map<string, nat>, e: Element, bound: nat, more: nat)
    requires UsesBelow(ctx, rank, e, bound) && bound <= more
    ensures UsesBelow(ctx, rank, e, more)
    decreases e
  {
    forall i | 0 <= i < |e.children|
      ensures UsesBelow(ctx, rank, e.children[i], more)
    {
      RankSuffices(ctx, rank, e.children[i], bound, more);
    }
  }

  lemma {:induction false} FuelForChildren(ctx: Context, rank: map<string, nat>, fuel: nat, e: Element,
                                           i: nat, end: nat, env: Environment)
    requires Acyclic(ctx, rank) && UsesBelow(ctx, rank, e, fuel) && i <= end <= |e.children|
    ensures EvalChildren(ctx, fuel, e, i, end, env).Some?
    decreases fuel, e, 0, end - i
  {
    if i < end {
      FuelForTag(ctx, rank, fuel, e.children[i], env);
      FuelForChildren(ctx, rank, fuel, e, i + 1, end, env);
    }
  }

  lemma {:induction false} FuelForTag(ctx: Context, rank: map<string, nat>, fuel: nat, e: Element, env: Environment)
    requires Acyclic(ctx, rank) && UsesBelow(ctx, rank, e, fuel)
    ensures EvalTag(ctx, fuel, e, env).Some?
    decreases fuel, e, 3
  {
    if e.name == "files" {
      FuelForFiles(ctx, rank, fuel, e, 0, env);
    } else if e.name == "if" {
      var k := ElseAt(e.children, 0);
      FuelForChildren(ctx, rank, fuel, e, 0, k, env);
      if k < |e.children| {
        FuelForChildren(ctx, rank, fuel, e, k + 1, |e.children|, env);
      }
    } else {
      FuelForElement(ctx, rank, fuel, e, env);
    }
  }

  lemma {:induction false} FuelForFiles(ctx: Context, rank: map<string, nat>, fuel: nat, e: Element, i: nat,
      env: Environment)
    requires Acyclic(ctx, rank) && UsesBelow(ctx, rank, e, fuel) && i <= |ctx.files|
    ensures EvalFiles(ctx, fuel, e, i, env).Some?
    decreases fuel, e, 2, |ctx.files| - i
  {
    if i < |ctx.files| {
      FuelForElement(ctx, rank, fuel, e, Bind(env, FileBindings(e, ctx.files[i])));
      FuelForFiles(ctx, rank, fuel, e, i + 1, env);
    }
  }

  /** Templates without a cycle always expand: a template of rank `r` never nests deeper than `r`. */
  lemma AcyclicTemplatesExpand(ctx: Context, rank: map<string, nat>, name: string, env: Environment)
    requires Acyclic(ctx, rank) && name in ctx.templates
    ensures Eval(ctx, rank[name], ctx.templates[name], env).Some?
  {
    FuelForElement(ctx, rank, rank[name], ctx.templates[name], env);
  }
}
