/** A worked example of `render` with the default tags: two one-letter
    registered actions, where the first one's result is the text of the
    second tag. */
module RenderExample {
  import opened JsValues
  import opened TextOps
  import opened Scanner
  import opened Renderer
  import Engine

  /** The tag `{{x}}` for a one-letter name `x`. */
  function Tagged(x: char): string {
    "{{" + [x] + "}}"
  }

  /** Each occurrence replaces the first literal match of its text in the
      text as it stands, not the place it was found: in `{{a}} {{b}}`, when
      action `a` returns `{{b}}`, the result of `b` lands on that inserted
      text and the tag `{{b}}` the template held is left in place. */
  lemma InsertedTextIsReplaced(a: char, b: char, r: string)
    requires 'a' <= a <= 'z' && 'a' <= b <= 'z' && '$' !in r
    ensures var options := map["tags" := Obj(map["open" := Str("{{"), "close" := Str("}}")]),
                               "actions" := Obj(map[[a] := Fn([a]), [b] := Fn([b])])];
            Rendering(options, Str(Tagged(a) + " " + Tagged(b)), i => if i == 0 then Some(Tagged(b)) else Some(r))
              == Rendered(r + " " + Tagged(b))
  {
    var options := map["tags" := Obj(map["open" := Str("{{"), "close" := Str("}}")]),
                       "actions" := Obj(map[[a] := Fn([a]), [b] := Fn([b])])];
    var invoke: nat -> Option<string> := i => if i == 0 then Some(Tagged(b)) else Some(r);
    var t := Tagged(a) + " " + Tagged(b);
    ExampleOccurrences(a, b);
    ExampleReplacements(a, b, r);
    assert Tag(options, "open") == Some("{{") && Tag(options, "close") == Some("}}");
    ExampleResolve(options["actions"], a, invoke(0));
    ExampleResolve(options["actions"], b, invoke(1));
    TwoOccurrences(options, t, invoke, Tagged(a), Tagged(b), Tagged(b), r);
  }

  lemma ExampleOccurrences(a: char, b: char)
    requires 'a' <= a <= 'z' && 'a' <= b <= 'z'
    ensures Occurrences(Tagged(a) + " " + Tagged(b), "{{", "}}") == [Tagged(a), Tagged(b)]
  {
    var t := Tagged(a) + " " + Tagged(b);
    assert t == "{{" + [a] + "}}" + " " + "{{" + [b] + "}}";
    assert OccursAt(t, "{{" + [a] + "}}", 0);
    assert ([a] + "}}")[0..2] == [a, '}'] && ([b] + "}}")[0..2] == [b, '}'];
    TagMatchesAt(t, 0, "{{", [a], "}}");
    assert OccursAt(t, "{{" + [b] + "}}", 6);
    TagMatchesAt(t, 6, "{{", [b], "}}");
    assert t[5..7] == [' ', '{'];
    assert Scan(t, "{{", "}}", 11) == [];
    assert Scan(t, "{{", "}}", 5) == Scan(t, "{{", "}}", 6) == [Span(6, 11)];
    assert Scan(t, "{{", "}}", 0) == [Span(0, 5), Span(6, 11)];
    assert t[0..5] == Tagged(a) && t[6..11] == Tagged(b);
  }

  lemma ExampleName(c: char)
    requires 'a' <= c <= 'z'
    ensures ActionName(Tagged(c), "{{", "}}") == [c]
  {
    assert ([c] + "}}")[0] == c;
    WholeTagNameTrimmed("{{", [c], "}}");
  }

  /** A one-character name has no parentheses. */
  lemma SingleCharNotCall(c: char)
    requires c != '(' && c != ')'
    ensures !IsCallForm([c])
  {
  }

  lemma ExampleResolve(actions: Value, c: char, res: Option<string>)
    requires 'a' <= c <= 'z' && actions.Obj? && [c] in actions.fields && actions.fields[[c]].Fn?
    ensures Resolve(actions, Tagged(c), ActionName(Tagged(c), "{{", "}}"), res) == res
  {
    ExampleName(c);
    SingleCharNotCall(c);
  }

  lemma ExampleReplacements(a: char, b: char, r: string)
    requires 'a' <= b <= 'z' && '$' !in r
    ensures ReplaceFirst(Tagged(a) + " " + Tagged(b), Tagged(a), Tagged(b)) == Tagged(b) + " " + Tagged(b)
    ensures ReplaceFirst(Tagged(b) + " " + Tagged(b), Tagged(b), r) == r + " " + Tagged(b)
  {
    assert '$' !in Tagged(b) by {
      assert Tagged(b) == ['{', '{', b, '}', '}'];
    }
    ReplaceLeading(Tagged(a), " ", Tagged(b), Tagged(b));
    ReplaceLeading(Tagged(b), " ", Tagged(b), r);
  }

  /** `replace` expands the `$` patterns of what it puts back: with the
      default options, the unknown name in `{{ $& }}` is put back with `$&`
      standing for the whole occurrence. */
  lemma DollarInUnknownName(invoke: nat -> Option<string>)
    ensures Rendering(Engine.DefaultOptions, Str("{{ $& }}"), invoke) == Rendered("{{ " + "{{ $& }}" + " }}")
  {
    var t, name := "{{ $& }}", " $& ";
    assert t == "{{" + name + "}}";
    var u := name + "}}";
    assert u == [' ', '$', '&', ' ', '}', '}'];
    NoCloseBefore(u, "}}", |name|);
    WholeTagScan("{{", name, "}}");
    DollarNameTrimmed();
    DefaultTagValues();
    UnknownNameExpands(Engine.DefaultOptions, t, invoke);
    DollarExpanded();
  }

  /** A close tag cannot start where its first character is missing. */
  lemma NoCloseBefore(u: string, close: string, n: nat)
    requires close != [] && n <= |u| && forall k :: 0 <= k < n ==> u[k] != close[0]
    ensures forall k :: 0 <= k < n ==> !OccursAt(u, close, k)
  {
    forall k | 0 <= k < n ensures !OccursAt(u, close, k) {
      if k + |close| <= |u| {
        assert u[k..k + |close|][0] == u[k];
      }
    }
  }

  lemma DollarNameTrimmed()
    ensures Trim(" $& ") == "$&" && !IsCallForm("$&")
  {
    assert SkipSpace(" $& ", 0) == 1;
    assert SkipSpaceBack(" $& ", 4) == 3;
  }

  lemma DollarExpanded()
    ensures Expand("{{ $& }}", [], "{{ $& }}", []) == "{{ " + "{{ $& }}" + " }}"
  {
    var t, tail := "{{ $& }}", " }}";
    assert '$' !in tail by {
      assert tail == [' ', '}', '}'];
    }
    ExpandWholeMatch(tail, [], t, []);
    ExpandLiteral(' ', "$&" + tail, [], t, []);
    ExpandLiteral('{', [' '] + ("$&" + tail), [], t, []);
    ExpandLiteral('{', ['{'] + ([' '] + ("$&" + tail)), [], t, []);
    DollarPieces();
  }

  lemma DollarPieces()
    ensures ['{'] + (['{'] + ([' '] + ("$&" + " }}"))) == "{{ $& }}"
    ensures ['{'] + (['{'] + ([' '] + ("{{ $& }}" + " }}"))) == "{{ " + "{{ $& }}" + " }}"
  {
  }

  lemma DefaultTagValues()
    ensures Tag(Engine.DefaultOptions, "open") == Some("{{") && Tag(Engine.DefaultOptions, "close") == Some("}}")
    ensures Get(Engine.DefaultOptions, "actions").Obj? && !Truthy(Get(Get(Engine.DefaultOptions, "actions").fields, "$&"))
  {
  }

  lemma ExpandLiteral(c: char, rest: string, before: string, matched: string, after: string)
    requires c != '$'
    ensures Expand([c] + rest, before, matched, after) == [c] + Expand(rest, before, matched, after)
  {
    assert ([c] + rest)[1..] == rest;
  }

  lemma ExpandWholeMatch(rest: string, before: string, matched: string, after: string)
    ensures Expand("$&" + rest, before, matched, after) == matched + Expand(rest, before, matched, after)
  {
    assert ("$&" + rest)[2..] == rest;
  }

  /** Replacing a prefix of the text, the first place it occurs. */
  lemma ReplaceLeading(pat: string, mid: string, last: string, rep: string)
    requires '$' !in rep
    ensures ReplaceFirst(pat + mid + last, pat, rep) == rep + mid + last
  {
    var rest := mid + last;
    var t := pat + rest;
    assert pat + mid + last == t && rep + mid + last == rep + rest;
    ConcatAt(pat, rest);
    IndexOfFirst(t, pat, 0);
    ReplaceFirstAt(t, pat, rep, 0);
    assert t[|pat|..] == rest;
  }
}
