/** `render(template)`, the same code in randomizeme.js and index.js: find
    the tag occurrences, resolve each to a replacement, and replace each
    occurrence's first literal match in the text, left to right. What
    `eval` of a call form and the call of a registered action produce is
    not computed here: `invoke(i)` gives the string the `i`-th occurrence's
    call yields, or `None` when that call throws. */
module Renderer {
  import opened JsValues
  import opened TextOps
  import opened Scanner

  /** The result of `render`: the rendered text, or an exception. */
  datatype Outcome = Rendered(text: string) | Threw

  /** `options.tags[name]` when it is a string. Reading it through a missing
      `tags` throws, and `split` on anything but a string throws too. */
  function Tag(options: map<string, Value>, name: string): (r: Option<string>)
    ensures r.Some? ==> Get(options, "tags").Obj? && Get(Get(options, "tags").fields, name) == Str(r.value)
    ensures r.None? ==> !Get(options, "tags").Obj? || !Get(Get(options, "tags").fields, name).Str?
  {
    var tags := Get(options, "tags");
    if tags.Obj? && name in tags.fields && tags.fields[name].Str? then Some(tags.fields[name].s)
    else None
  }

  /** A tag character the regular expression takes literally once escaped:
      a backslash before an ASCII letter or digit makes a class, a control
      character or a back reference instead. */
  predicate LiteralChar(c: char) {
    !('a' <= c <= 'z' || 'A' <= c <= 'Z' || '0' <= c <= '9')
  }

  predicate LiteralTag(tag: Option<string>) {
    tag.Some? ==> forall k :: 0 <= k < |tag.value| ==> LiteralChar(tag.value[k])
  }

  predicate LiteralTags(options: map<string, Value>) {
    LiteralTag(Tag(options, "open")) && LiteralTag(Tag(options, "close"))
  }

  /** The action name of an occurrence: the occurrence with its first open
      tag and then its first close tag removed, trimmed. */
  function ActionName(occ: string, open: string, close: string): (name: string)
    ensures Trim(name) == name
  {
    var inner := ReplaceFirst(ReplaceFirst(occ, open, ""), close, "");
    TrimIdempotent(inner);
    Trim(inner)
  }

  /** The replacement for one occurrence, or `None` when `render` throws.
      A call form is evaluated inside `try`, so a failing call gives `""`.
      A bare name is looked up in `actions` (which throws when `actions` is
      `undefined` or `null`); a falsy entry keeps the occurrence, a function
      is called outside any `try`, and any other truthy entry cannot be
      called. */
  function Resolve(actions: Value, occ: string, action: string, result: Option<string>): (r: Option<string>)
    ensures IsCallForm(action) ==> r.Some?
    ensures r.Some? ==> r.value == occ || r.value == "" || r == result
    ensures r.None? ==> !(actions.Obj? && Get(actions.fields, action).Fn? && result.Some?)
  {
    if IsCallForm(action) then Some(if result.Some? then result.value else "")
    else if actions.Undefined? || actions.Null? then None
    else
      var entry := if actions.Obj? then Get(actions.fields, action) else Undefined;
      if !Truthy(entry) then Some(occ)
      else if entry.Fn? then result
      else None
  }

  /** The substitution loop from occurrence `i` on, over the text so far. */
  function Steps(sentence: string, occs: seq<string>, open: string, close: string,
                 actions: Value, invoke: nat -> Option<string>, i: nat): Outcome
    requires i <= |occs|
    decreases |occs| - i
  {
    if i == |occs| then Rendered(sentence)
    else
      match Resolve(actions, occs[i], ActionName(occs[i], open, close), invoke(i))
      case None => Threw
      case Some(r) => Steps(ReplaceFirst(sentence, occs[i], r), occs, open, close, actions, invoke, i + 1)
  }

  /** `render(template)` on the given options. Tags that are not strings
      throw in `split`; an empty tag leaves the regular expression
      malformed; a template that is not a string has no `match`. */
  function Rendering(options: map<string, Value>, template: Value, invoke: nat -> Option<string>): Outcome {
    match (Tag(options, "open"), Tag(options, "close"))
    case (Some(open), Some(close)) =>
      if open == [] || close == [] || !template.Str? then Threw
      else Steps(template.s, Occurrences(template.s, open, close), open, close,
                 Get(options, "actions"), invoke, 0)
    case _ => Threw
  }

  /** `render` returns only when both tags are non-empty strings and the
      template is a string; otherwise it throws. */
  lemma RenderedNeedsTags(options: map<string, Value>, template: Value, invoke: nat -> Option<string>)
    ensures Rendering(options, template, invoke).Rendered? ==>
      && template.Str?
      && Get(options, "tags").Obj?
      && Get(Get(options, "tags").fields, "open").Str? && Get(Get(options, "tags").fields, "open").s != []
      && Get(Get(options, "tags").fields, "close").Str? && Get(Get(options, "tags").fields, "close").s != []
  {
  }

  /** `render(template)` as the source runs it. */
  method Render(options: map<string, Value>, template: Value, invoke: nat -> Option<string>) returns (out: Outcome)
    requires LiteralTags(options)
    ensures out == Rendering(options, template, invoke)
  {
    var openTag, closeTag := Tag(options, "open"), Tag(options, "close");
    if openTag.None? || closeTag.None? {
      return Threw;
    }
    var open, close := openTag.value, closeTag.value;
    if open == [] || close == [] || !template.Str? {
      return Threw;
    }
    var occs := Occurrences(template.s, open, close);
    out := Substitute(template.s, occs, open, close, Get(options, "actions"), invoke);
  }

  /** The loop of `render`: each occurrence in turn is resolved and its first
      literal match in the text so far replaced. */
  method Substitute(template: string, occs: seq<string>, open: string, close: string,
                    actions: Value, invoke: nat -> Option<string>) returns (out: Outcome)
    ensures out == Steps(template, occs, open, close, actions, invoke, 0)
  {
    var sentence := template;
    var i := 0;
    while i < |occs|
      invariant 0 <= i <= |occs|
      invariant Steps(sentence, occs, open, close, actions, invoke, i) == Steps(template, occs, open, close, actions, invoke, 0)
    {
      var action := ActionName(occs[i], open, close);
      var result := Resolve(actions, occs[i], action, invoke(i));
      if result.None? {
        return Threw;
      }
      sentence := ReplaceFirst(sentence, occs[i], result.value);
      i := i + 1;
    }
    return Rendered(sentence);
  }

  /** A template in which the regular expression matches nowhere comes back
      as it was. */
  lemma NoMatchUnchanged(options: map<string, Value>, t: string, invoke: nat -> Option<string>)
    requires Tag(options, "open").Some? && Tag(options, "close").Some?
    requires Tag(options, "open").value != [] && Tag(options, "close").value != []
    requires forall p :: MatchAt(t, Tag(options, "open").value, Tag(options, "close").value, p).None?
    ensures Rendering(options, Str(t), invoke) == Rendered(t)
  {
    NoMatchNoSpans(t, Tag(options, "open").value, Tag(options, "close").value, 0);
  }

  lemma {:induction false} NoMatchNoSpans(t: string, open: string, close: string, from: nat)
    requires open != [] && forall p :: MatchAt(t, open, close, p).None?
    ensures Scan(t, open, close, from) == []
    decreases |t| - from
  {
    if from < |t| {
      NoMatchNoSpans(t, open, close, from + 1);
    }
  }

  /** In particular, a template without the open tag comes back as it was. */
  lemma NoOpenTagUnchanged(options: map<string, Value>, t: string, invoke: nat -> Option<string>)
    requires Tag(options, "open").Some? && Tag(options, "close").Some?
    requires Tag(options, "open").value != [] && Tag(options, "close").value != []
    requires forall p :: !OccursAt(t, Tag(options, "open").value, p)
    ensures Rendering(options, Str(t), invoke) == Rendered(t)
  {
    NoMatchUnchanged(options, t, invoke);
  }

  /** The occurrences are pieces of the template. */
  lemma OccurrencesInTemplate(t: string, open: string, close: string)
    requires open != []
    ensures forall i, c :: 0 <= i < |Occurrences(t, open, close)| && c in Occurrences(t, open, close)[i] ==> c in t
  {
    var spans := Scan(t, open, close, 0);
    forall i, c | 0 <= i < |spans| && c in Occurrences(t, open, close)[i] ensures c in t {
      var k :| 0 <= k < |t[spans[i].start..spans[i].end]| && t[spans[i].start..spans[i].end][k] == c;
      assert t[spans[i].start + k] == c;
    }
  }

  /** When every occurrence is a bare name that `actions` does not hold, the
      text comes back as it was (a `$` in it would be expanded by `replace`,
      so the template holds none). */
  lemma UnknownNamesUnchanged(options: map<string, Value>, t: string, invoke: nat -> Option<string>)
    requires Tag(options, "open").Some? && Tag(options, "close").Some?
    requires Tag(options, "open").value != [] && Tag(options, "close").value != []
    requires '$' !in t && Get(options, "actions").Obj?
    requires var open, close := Tag(options, "open").value, Tag(options, "close").value;
             forall occ :: occ in Occurrences(t, open, close) ==>
               var name := ActionName(occ, open, close);
               !IsCallForm(name) && !Truthy(Get(Get(options, "actions").fields, name))
    ensures Rendering(options, Str(t), invoke) == Rendered(t)
  {
    var open, close := Tag(options, "open").value, Tag(options, "close").value;
    var occs := Occurrences(t, open, close);
    OccurrencesInTemplate(t, open, close);
    StepsKeep(t, occs, open, close, Get(options, "actions"), invoke, 0);
  }

  lemma {:induction false} StepsKeep(t: string, occs: seq<string>, open: string, close: string,
                                     actions: Value, invoke: nat -> Option<string>, i: nat)
    requires i <= |occs| && actions.Obj?
    requires forall j, c :: 0 <= j < |occs| && c in occs[j] ==> c != '$'
    requires forall occ :: occ in occs ==>
               var name := ActionName(occ, open, close);
               !IsCallForm(name) && !Truthy(Get(actions.fields, name))
    ensures Steps(t, occs, open, close, actions, invoke, i) == Rendered(t)
    decreases |occs| - i
  {
    if i < |occs| {
      var occ := occs[i];
      assert occ in occs;
      assert Resolve(actions, occ, ActionName(occ, open, close), invoke(i)) == Some(occ);
      assert '$' !in occ;
      ReplaceWithItself(t, occ);
      StepsKeep(t, occs, open, close, actions, invoke, i + 1);
    }
  }

  /** A template that is exactly one tag around a name: it is found as the
      only occurrence, and its action name is the trimmed name. The name is
      non-empty, on one line, and the close tag does not start inside it. */
  lemma WholeTagScan(open: string, name: string, close: string)
    requires open != [] && close != [] && name != []
    requires forall k :: 0 <= k < |name| ==> !IsLineTerminator(name[k])
    requires forall k :: 0 <= k < |name| ==> !OccursAt(name + close, close, k)
    ensures Occurrences(open + name + close, open, close) == [open + name + close]
    ensures ActionName(open + name + close, open, close) == Trim(name)
  {
    var t := open + name + close;
    WholeTagMatches(open, name, close);
    assert Scan(t, open, close, |t|) == [];
    assert Scan(t, open, close, 0) == [Span(0, |t|)];
    assert t[0..|t|] == t;
    WholeTagName(open, name, close);
  }

  lemma WholeTagName(open: string, name: string, close: string)
    requires forall k :: 0 <= k < |name| ==> !OccursAt(name + close, close, k)
    ensures ActionName(open + name + close, open, close) == Trim(name)
  {
    var t := open + name + close;
    assert t == open + (name + close);
    assert t[0..0 + |open|] == open;
    assert OccursAt(t, open, 0);
    IndexOfFirst(t, open, 0);
    ReplaceFirstAt(t, open, "", 0);
    assert ReplaceFirst(t, open, "") == name + close;
    assert OccursAt(name + close, close, |name|);
    IndexOfFirst(name + close, close, |name|);
    ReplaceFirstAt(name + close, close, "", |name|);
    assert ReplaceFirst(name + close, close, "") == name;
  }

  /** The same, for a name without surrounding white space. */
  lemma WholeTagNameTrimmed(open: string, name: string, close: string)
    requires forall k :: 0 <= k < |name| ==> !OccursAt(name + close, close, k)
    requires name == [] || (!IsWhitespace(name[0]) && !IsWhitespace(name[|name| - 1]))
    ensures ActionName(open + name + close, open, close) == name
  {
    WholeTagName(open, name, close);
    TrimKeeps(name);
  }

  lemma WholeTagMatches(open: string, name: string, close: string)
    requires open != [] && close != [] && name != []
    requires forall k :: 0 <= k < |name| ==> !IsLineTerminator(name[k])
    requires forall k :: 0 <= k < |name| ==> !OccursAt(name + close, close, k)
    ensures MatchAt(open + name + close, open, close, 0) == Some(|open + name + close|)
  {
    var t := open + name + close;
    var q, m := |open|, |open| + |name|;
    assert OccursAt(t, open, 0) by {
      ConcatAt(open, name + close);
      assert t == open + (name + close);
    }
    assert Closes(t, close, q, m) by {
      ConcatAt(open + name, close);
      WholeTagOneLine(open, name, close);
    }
    assert forall n :: q < n < m ==> !Closes(t, close, q, n) by {
      WholeTagNoEarlierClose(open, name, close);
    }
    assert IsMatch(t, open, close, 0, |t|);
    MatchUnique(t, open, close, 0, MatchAt(t, open, close, 0).value, |t|);
  }

  lemma WholeTagOneLine(open: string, name: string, close: string)
    requires forall k :: 0 <= k < |name| ==> !IsLineTerminator(name[k])
    ensures OneLine(open + name + close, |open|, |open| + |name|)
  {
    var t := open + name + close;
    forall k | |open| <= k < |open| + |name| ensures !IsLineTerminator(t[k]) {
      assert t[k] == name[k - |open|];
    }
  }

  lemma WholeTagNoEarlierClose(open: string, name: string, close: string)
    requires forall k :: 0 <= k < |name| ==> !OccursAt(name + close, close, k)
    ensures forall n :: |open| < n < |open| + |name| ==> !Closes(open + name + close, close, |open|, n)
  {
    var t := open + name + close;
    forall n | |open| < n < |open| + |name| ensures !OccursAt(t, close, n) {
      assert t == open + (name + close);
      assert !OccursAt(name + close, close, n - |open|);
      if n + |close| <= |t| {
        assert t[n..n + |close|] == (name + close)[n - |open|..n - |open| + |close|];
      }
    }
  }

  /** Both parts of a concatenation occur in it where they were put. */
  lemma ConcatAt(x: string, y: string)
    ensures OccursAt(x + y, x, 0) && OccursAt(x + y, y, |x|)
  {
    assert (x + y)[0..|x|] == x;
    assert (x + y)[|x|..|x| + |y|] == y;
  }

  /** A template that is exactly one tag: a call form renders as what the
      call returns, or as `""` when it throws, since the `eval` sits inside
      `try`. Results hold no `$`, which `replace` would expand. */
  lemma CallFormRendering(options: map<string, Value>, t: string, invoke: nat -> Option<string>)
    requires Tag(options, "open").Some? && Tag(options, "close").Some?
    requires Tag(options, "open").value != [] && Tag(options, "close").value != []
    requires Occurrences(t, Tag(options, "open").value, Tag(options, "close").value) == [t]
    requires IsCallForm(ActionName(t, Tag(options, "open").value, Tag(options, "close").value))
    requires invoke(0).Some? ==> '$' !in invoke(0).value
    ensures Rendering(options, Str(t), invoke) == Rendered(if invoke(0).Some? then invoke(0).value else "")
  {
    RenderingOneTag(options, t, invoke);
    ReplaceWhole(t, if invoke(0).Some? then invoke(0).value else "");
  }

  /** A bare name looked up while `actions` is `undefined` or `null` makes
      `render` throw. */
  lemma MissingActionsRendering(options: map<string, Value>, t: string, invoke: nat -> Option<string>)
    requires Tag(options, "open").Some? && Tag(options, "close").Some?
    requires Tag(options, "open").value != [] && Tag(options, "close").value != []
    requires Occurrences(t, Tag(options, "open").value, Tag(options, "close").value) == [t]
    requires !IsCallForm(ActionName(t, Tag(options, "open").value, Tag(options, "close").value))
    requires Get(options, "actions").Undefined? || Get(options, "actions").Null?
    ensures Rendering(options, Str(t), invoke) == Threw
  {
    RenderingOneTag(options, t, invoke);
  }

  /** A bare name `actions` does not hold is put back through `replace`,
      which expands the `$` patterns the occurrence itself holds. */
  lemma UnknownNameExpands(options: map<string, Value>, t: string, invoke: nat -> Option<string>)
    requires Tag(options, "open").Some? && Tag(options, "close").Some?
    requires Tag(options, "open").value != [] && Tag(options, "close").value != []
    requires Occurrences(t, Tag(options, "open").value, Tag(options, "close").value) == [t]
    requires var name := ActionName(t, Tag(options, "open").value, Tag(options, "close").value);
             && !IsCallForm(name) && Get(options, "actions").Obj?
             && !Truthy(Get(Get(options, "actions").fields, name))
    ensures Rendering(options, Str(t), invoke) == Rendered(Expand(t, [], t, []))
  {
    var open, close := Tag(options, "open").value, Tag(options, "close").value;
    assert Resolve(Get(options, "actions"), t, ActionName(t, open, close), invoke(0)) == Some(t);
    RenderingOneTag(options, t, invoke);
    ReplaceWholeExpanded(t, t);
  }

  /** A bare name `actions` does not hold stays verbatim, in a template
      without `$`. */
  lemma UnknownNameRendering(options: map<string, Value>, t: string, invoke: nat -> Option<string>)
    requires Tag(options, "open").Some? && Tag(options, "close").Some?
    requires Tag(options, "open").value != [] && Tag(options, "close").value != []
    requires Occurrences(t, Tag(options, "open").value, Tag(options, "close").value) == [t]
    requires var name := ActionName(t, Tag(options, "open").value, Tag(options, "close").value);
             && !IsCallForm(name) && Get(options, "actions").Obj?
             && !Truthy(Get(Get(options, "actions").fields, name))
    requires '$' !in t
    ensures Rendering(options, Str(t), invoke) == Rendered(t)
  {
    RenderingOneTag(options, t, invoke);
    ReplaceWhole(t, t);
  }

  /** A bare name registered as a function is replaced by what its call
      with no arguments returns; when that call throws, so does `render`. */
  lemma RegisteredNameRendering(options: map<string, Value>, t: string, invoke: nat -> Option<string>)
    requires Tag(options, "open").Some? && Tag(options, "close").Some?
    requires Tag(options, "open").value != [] && Tag(options, "close").value != []
    requires Occurrences(t, Tag(options, "open").value, Tag(options, "close").value) == [t]
    requires var name := ActionName(t, Tag(options, "open").value, Tag(options, "close").value);
             && !IsCallForm(name) && Get(options, "actions").Obj?
             && Get(Get(options, "actions").fields, name).Fn?
    requires invoke(0).Some? ==> '$' !in invoke(0).value
    ensures Rendering(options, Str(t), invoke) == if invoke(0).Some? then Rendered(invoke(0).value) else Threw
  {
    var name := ActionName(t, Tag(options, "open").value, Tag(options, "close").value);
    var entry := Get(Get(options, "actions").fields, name);
    assert Truthy(entry);
    assert Resolve(Get(options, "actions"), t, name, invoke(0)) == invoke(0);
    RenderingOneTag(options, t, invoke);
    if invoke(0).Some? {
      ReplaceWhole(t, invoke(0).value);
    }
  }

  lemma RenderingOneTag(options: map<string, Value>, t: string, invoke: nat -> Option<string>)
    requires Tag(options, "open").Some? && Tag(options, "close").Some?
    requires Tag(options, "open").value != [] && Tag(options, "close").value != []
    requires Occurrences(t, Tag(options, "open").value, Tag(options, "close").value) == [t]
    ensures var open, close := Tag(options, "open").value, Tag(options, "close").value;
            var r := Resolve(Get(options, "actions"), t, ActionName(t, open, close), invoke(0));
            Rendering(options, Str(t), invoke) == if r.Some? then Rendered(ReplaceFirst(t, t, r.value)) else Threw
  {
    var open, close := Tag(options, "open").value, Tag(options, "close").value;
    assert Rendering(options, Str(t), invoke) == Steps(t, [t], open, close, Get(options, "actions"), invoke, 0);
    SingleStep(t, open, close, Get(options, "actions"), invoke);
  }

  lemma SingleStep(t: string, open: string, close: string, actions: Value, invoke: nat -> Option<string>)
    ensures var r := Resolve(actions, t, ActionName(t, open, close), invoke(0));
            Steps(t, [t], open, close, actions, invoke, 0) == if r.Some? then Rendered(ReplaceFirst(t, t, r.value)) else Threw
  {
  }

  /** A tag around a name, found anywhere in a template, is a match there. */
  lemma TagMatchesAt(t: string, p: nat, open: string, name: string, close: string)
    requires open != [] && close != [] && name != []
    requires forall k :: 0 <= k < |name| ==> !IsLineTerminator(name[k])
    requires forall k :: 0 <= k < |name| ==> !OccursAt(name + close, close, k)
    requires OccursAt(t, open + name + close, p)
    ensures MatchAt(t, open, close, p) == Some(p + |open + name + close|)
  {
    var w := open + name + close;
    WholeTagMatches(open, name, close);
    assert w[0..|w|] == w;
    MatchTextAnywhere(w, t, open, close, 0, |w|, p);
    MatchUnique(t, open, close, p, MatchAt(t, open, close, p).value, p + |w|);
  }

  /** Rendering a template with two occurrences, each resolved. */
  lemma TwoOccurrences(options: map<string, Value>, t: string, invoke: nat -> Option<string>,
                       o0: string, o1: string, r0: string, r1: string)
    requires Tag(options, "open").Some? && Tag(options, "close").Some?
    requires Tag(options, "open").value != [] && Tag(options, "close").value != []
    requires var open, close := Tag(options, "open").value, Tag(options, "close").value;
             && Occurrences(t, open, close) == [o0, o1]
             && Resolve(Get(options, "actions"), o0, ActionName(o0, open, close), invoke(0)) == Some(r0)
             && Resolve(Get(options, "actions"), o1, ActionName(o1, open, close), invoke(1)) == Some(r1)
    ensures Rendering(options, Str(t), invoke) == Rendered(ReplaceFirst(ReplaceFirst(t, o0, r0), o1, r1))
  {
    var open, close := Tag(options, "open").value, Tag(options, "close").value;
    var actions := Get(options, "actions");
    var occs := [o0, o1];
    assert Rendering(options, Str(t), invoke) == Steps(t, occs, open, close, actions, invoke, 0);
    var t1 := ReplaceFirst(t, o0, r0);
    StepOnce(t, occs, open, close, actions, invoke, 0, r0);
    StepOnce(t1, occs, open, close, actions, invoke, 1, r1);
  }

  lemma StepOnce(sentence: string, occs: seq<string>, open: string, close: string,
                 actions: Value, invoke: nat -> Option<string>, i: nat, r: string)
    requires i < |occs| && Resolve(actions, occs[i], ActionName(occs[i], open, close), invoke(i)) == Some(r)
    ensures Steps(sentence, occs, open, close, actions, invoke, i)
         == Steps(ReplaceFirst(sentence, occs[i], r), occs, open, close, actions, invoke, i + 1)
  {
  }
}
