/** The `RandomizeMe` object: its `options`, `configure` and `render`. The
    current version (randomizeme.js) configures with the deep merge; the
    earlier one (index.js) with the shallow merge, and its `configure`
    returns the engine's internal `self`, not the object `new` returns. */
module Engine {
  import opened JsValues
  import DeepMerge
  import ShallowMerge
  import Renderer

  /** The options both versions start from: the tags `{{` and `}}` and the
      actions `number` and `choice`. */
  const DefaultTags: map<string, Value> := map["open" := Str("{{"), "close" := Str("}}")]
  const DefaultActions: map<string, Value> := map["number" := Fn("number"), "choice" := Fn("choice")]
  const DefaultOptions: map<string, Value> := map["tags" := Obj(DefaultTags), "actions" := Obj(DefaultActions)]

  /** `options || {}`: what `configure` merges in. */
  function OrEmpty(opts: Value): Value {
    if Truthy(opts) then opts else Obj(map[])
  }

  /** randomizeme.js. */
  class RandomizeMe {
    var options: map<string, Value>

    /** Every options object the deep merge builds is normalized. */
    ghost predicate Valid()
      reads this
    {
      Normalized(Obj(options))
    }

    /** `new RandomizeMe(opts)`: the defaults, configured with `opts` when
        it is truthy. */
    constructor (opts: Value)
      ensures Valid()
      ensures options == if Truthy(opts) then DeepMerge.MergeAll([Obj(DefaultOptions), opts]) else DefaultOptions
    {
      options := DefaultOptions;
      new;
      if Truthy(opts) {
        Configure(opts);
      }
    }

    /** `configure(opts)`: the options become `merge(options, opts || {})`;
        a falsy `opts` leaves them as they were. */
    method Configure(opts: Value)
      requires Valid()
      modifies this
      ensures Valid()
      ensures options == DeepMerge.MergeAll([Obj(old(options)), OrEmpty(opts)])
      ensures !Truthy(opts) ==> options == old(options)
    {
      var arg := OrEmpty(opts);
      HeightBounds(Obj(options));
      HeightBounds(arg);
      ghost var depth := 1 + Height(Obj(options)) + Height(arg);
      NestedAtMostMonotone(Obj(options), Height(Obj(options)), depth);
      NestedAtMostMonotone(arg, Height(arg), depth);
      ghost var before := options;
      options := DeepMerge.Merge([Obj(options), arg], depth);
      DeepMerge.MergeNormalized([Obj(before), arg]);
      if !Truthy(opts) {
        DeepMerge.MergeWithNothing(before, arg);
      }
    }

    /** `render(template)` on the current options. */
    method Render(template: Value, invoke: nat -> Option<string>) returns (out: Renderer.Outcome)
      requires Renderer.LiteralTags(options)
      ensures out == Renderer.Rendering(options, template, invoke)
    {
      out := Renderer.Render(options, template, invoke);
    }
  }

  /** index.js. */
  class LegacyRandomizeMe {
    var options: map<string, Value>

    constructor (opts: Value)
      ensures options == if Truthy(opts) then ShallowMerge.AssignAll([Obj(DefaultOptions), opts]) else DefaultOptions
    {
      options := DefaultOptions;
      new;
      if Truthy(opts) {
        var _ := Configure(opts);
      }
    }

    /** `configure(opts)`: the options become `merge(options, opts || {})`
        with the shallow merge, and the engine's internal `self` is returned
        (`new` hands out a different object, which this model leaves out). */
    method Configure(opts: Value) returns (self: LegacyRandomizeMe)
      modifies this
      ensures self == this
      ensures options == ShallowMerge.AssignAll([Obj(old(options)), OrEmpty(opts)])
      ensures !Truthy(opts) ==> options == old(options)
    {
      ghost var before := options;
      options := ShallowMerge.Merge([Obj(options), OrEmpty(opts)]);
      assert [Obj(before), OrEmpty(opts)][..1] == [Obj(before)] && [Obj(before)][..0] == [];
      assert ShallowMerge.AssignAll([Obj(before)]) == map[] + before == before;
      self := this;
    }

    method Render(template: Value, invoke: nat -> Option<string>) returns (out: Renderer.Outcome)
      requires Renderer.LiteralTags(options)
      ensures out == Renderer.Rendering(options, template, invoke)
    {
      out := Renderer.Render(options, template, invoke);
    }
  }

  /** Options that set only the open tag. */
  function OpenTagOnly(open: string): Value {
    Obj(map["tags" := Obj(map["open" := Str(open)])])
  }

  /** Deep `configure` with only a new open tag keeps the default close tag. */
  lemma DeepConfigureKeepsCloseTag(open: string)
    ensures Renderer.Tag(DeepMerge.MergeAll([Obj(DefaultOptions), OpenTagOnly(open)]), "close") == Some("}}")
    ensures Renderer.Tag(DeepMerge.MergeAll([Obj(DefaultOptions), OpenTagOnly(open)]), "open") == Some(open)
  {
    var merged := DeepMerge.MergeAll([Obj(DefaultOptions), OpenTagOnly(open)]);
    DeepMerge.NestedSurvives(DefaultOptions, OpenTagOnly(open), "tags", "close");
    OpenTagMerged(open);
  }

  lemma OpenTagMerged(open: string)
    ensures var merged := DeepMerge.MergeAll([Obj(DefaultOptions), OpenTagOnly(open)]);
            "tags" in merged && merged["tags"].Obj? && Get(merged["tags"].fields, "open") == Str(open)
  {
    DeepMerge.NestedOverrides(DefaultOptions, OpenTagOnly(open), "tags", "open");
  }

  /** Shallow `configure` with only a new open tag replaces the whole `tags`
      object: the close tag is gone, and every `render` afterwards throws. */
  lemma LegacyConfigureDropsCloseTag(open: string, template: Value, invoke: nat -> Option<string>)
    ensures Renderer.Tag(ShallowMerge.AssignAll([Obj(DefaultOptions), OpenTagOnly(open)]), "close") == None
    ensures Renderer.Rendering(ShallowMerge.AssignAll([Obj(DefaultOptions), OpenTagOnly(open)]), template, invoke) == Renderer.Threw
  {
    ShallowMerge.LastWins([Obj(DefaultOptions), OpenTagOnly(open)], 1, "tags");
  }

  /** Options that set the actions. */
  function ActionsOnly(actions: map<string, Value>): Value {
    Obj(map["actions" := Obj(actions)])
  }

  /** Deep `configure` with new actions keeps `number` and `choice`: the
      actions are the defaults and the new ones together. */
  lemma DeepConfigureKeepsActions(actions: map<string, Value>)
    ensures var merged := DeepMerge.MergeAll([Obj(DefaultOptions), ActionsOnly(actions)]);
            "actions" in merged && merged["actions"].Obj?
            && merged["actions"].fields.Keys == {"number", "choice"} + actions.Keys
  {
    DeepMerge.NestedKeysPair(DefaultOptions, ActionsOnly(actions), "actions");
  }

  /** A default action the new actions do not name keeps its function. */
  lemma DeepConfigureKeepsDefaultAction(actions: map<string, Value>, name: string)
    requires name in DefaultActions && name !in actions
    ensures var merged := DeepMerge.MergeAll([Obj(DefaultOptions), ActionsOnly(actions)]);
            "actions" in merged && merged["actions"].Obj? && name in merged["actions"].fields
            && merged["actions"].fields[name] == DefaultActions[name]
  {
    DefaultsNormalized();
    DeepMerge.NestedSurvives(DefaultOptions, ActionsOnly(actions), "actions", name);
  }

  lemma DefaultsNormalized()
    ensures Normalized(Obj(DefaultOptions))
  {
    assert Normalized(Obj(DefaultTags));
    assert Normalized(Obj(DefaultActions));
  }

  /** Shallow `configure` with new actions replaces the whole `actions`
      object: `number` and `choice` are gone unless the new actions define
      them. */
  lemma LegacyConfigureReplacesActions(actions: map<string, Value>)
    ensures var merged := ShallowMerge.AssignAll([Obj(DefaultOptions), ActionsOnly(actions)]);
            "actions" in merged && merged["actions"] == Obj(actions)
  {
    ShallowMerge.LastWins([Obj(DefaultOptions), ActionsOnly(actions)], 1, "actions");
  }

  /** The default tags are ones the regular expression takes literally. */
  lemma DefaultTagsLiteral()
    ensures Renderer.LiteralTags(DefaultOptions)
  {
    assert Renderer.Tag(DefaultOptions, "open") == Some("{{");
    assert Renderer.Tag(DefaultOptions, "close") == Some("}}");
  }
}
