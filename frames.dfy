/**
 * The frame scrubber clearReasoning: in every object entry of a frame's
 * `choices` array, the objects under `delta` (streaming) and `message`
 * (non-streaming) have an existing `reasoning_content` blanked to "". The
 * key is never added, and nothing else is touched.
 */
module Frames {
  import opened Wrappers
  import opened Json

  const ChoicesKey := "choices"
  const DeltaKey := "delta"
  const MessageKey := "message"

  /** The keys of a choice that are looked under, in the order they are visited. */
  const ScrubbedKeys := [DeltaKey, MessageKey]

  /** The top-level `choices`, when it is present and an array. */
  function Choices(frame: Value): (r: Option<seq<Value>>)
    ensures r.Some? <==> Get(frame, ChoicesKey).Some? && Get(frame, ChoicesKey).value.Array?
  {
    match Get(frame, ChoicesKey)
    case Some(Array(cs)) => Some(cs)
    case _ => None
  }

  /** The object under choice[key], when there is one. */
  function Inner(choice: Value, key: string): (r: Option<map<string, Value>>)
    ensures r.Some? <==> Get(choice, key).Some? && Get(choice, key).value.Object?
  {
    match Get(choice, key)
    case Some(Object(m)) => Some(m)
    case _ => None
  }

  /**
   * One step of the inner loop: blank choice[key]["reasoning_content"] if
   * choice[key] is an object that has that key. Every key set stays the
   * same, every other value stays the same.
   */
  function Blank(choice: Value, key: string): (r: Value)
    ensures Inner(choice, key).None? || ReasoningContent !in Inner(choice, key).value ==> r == choice
    ensures Inner(choice, key).Some? && ReasoningContent in Inner(choice, key).value ==>
      && r.Object? && r.fields.Keys == choice.fields.Keys
      && (forall k | k in choice.fields && k != key :: r.fields[k] == choice.fields[k])
      && Inner(r, key).Some?
      && Inner(r, key).value.Keys == Inner(choice, key).value.Keys
      && (forall k | k in Inner(choice, key).value && k != ReasoningContent ::
            Inner(r, key).value[k] == Inner(choice, key).value[k])
      && Inner(r, key).value[ReasoningContent] == Str("")
  {
    match Inner(choice, key)
    case Some(m) =>
      if ReasoningContent in m then Object(choice.fields[key := Object(m[ReasoningContent := Str("")])])
      else choice
    case None => choice
  }

  /** Blank applied for each of keys in turn. */
  function BlankEach(choice: Value, keys: seq<string>): Value
    decreases |keys|
  {
    if keys == [] then choice else Blank(BlankEach(choice, keys[..|keys| - 1]), keys[|keys| - 1])
  }

  lemma BlankEachStep(choice: Value, keys: seq<string>, k: nat)
    requires k < |keys|
    ensures BlankEach(choice, keys[..k + 1]) == Blank(BlankEach(choice, keys[..k]), keys[k])
  {
    assert keys[..k + 1][..k] == keys[..k];
  }

  /** A whole choice: entries that are not objects are skipped. */
  function ClearChoice(choice: Value): Value
  {
    if choice.Object? then BlankEach(choice, ScrubbedKeys) else choice
  }

  function ClearChoices(cs: seq<Value>): seq<Value>
  {
    seq(|cs|, i requires 0 <= i < |cs| => ClearChoice(cs[i]))
  }

  /** The frame clearReasoning leaves behind. */
  function Cleared(frame: Value): (r: Value)
    ensures Choices(frame).None? ==> r == frame
    ensures Choices(frame).Some? ==>
      && frame.Object? && r.Object? && r.fields.Keys == frame.fields.Keys
      && (forall k | k in frame.fields && k != ChoicesKey :: r.fields[k] == frame.fields[k])
      && Choices(r).Some? && |Choices(r).value| == |Choices(frame).value|
  {
    match Choices(frame)
    case Some(cs) => Object(frame.fields[ChoicesKey := Array(ClearChoices(cs))])
    case None => frame
  }

  /** clearReasoning: the loop over the choices and, inside it, over the two keys. */
  method ClearReasoning(data: Value) returns (r: Value)
    ensures r == Cleared(data)
  {
    var got := Get(data, ChoicesKey);
    if !(got.Some? && got.value.Array?) {
      return data;
    }
    var choices := got.value.items;
    ghost var original := choices;
    for i := 0 to |choices|
      invariant |choices| == |original|
      invariant choices[..i] == ClearChoices(original[..i])
      invariant choices[i..] == original[i..]
    {
      var choice := choices[i];
      assert choice == original[i];
      if !choice.Object? {
        assert ClearChoice(original[i]) == choice;
        continue;
      }
      for k := 0 to |ScrubbedKeys|
        invariant choice == BlankEach(original[i], ScrubbedKeys[..k])
      {
        var key := ScrubbedKeys[k];
        ghost var before := choice;
        var m := Get(choice, key);
        if m.Some? && m.value.Object? && ReasoningContent in m.value.fields {
          choice := Object(choice.fields[key := Object(m.value.fields[ReasoningContent := Str("")])]);
        }
        assert choice == Blank(before, key);
        BlankEachStep(original[i], ScrubbedKeys, k);
      }
      assert ScrubbedKeys[..|ScrubbedKeys|] == ScrubbedKeys;
      choices := choices[i := choice];
    }
    assert choices == ClearChoices(original) by {
      assert choices == choices[..|choices|];
      assert original == original[..|original|];
    }
    return Object(data.fields[ChoicesKey := Array(choices)]);
  }

  // ---------------------------------------------------------------------
  // Properties
  // ---------------------------------------------------------------------

  /** Under choice[key] there is no reasoning text left: the key is absent or blank. */
  ghost predicate BlankUnder(choice: Value, key: string)
  {
    Inner(choice, key).Some? && ReasoningContent in Inner(choice, key).value ==>
      Inner(choice, key).value[ReasoningContent] == Str("")
  }

  /** No object choice of the frame carries reasoning text under `delta` or `message`. */
  ghost predicate Scrubbed(frame: Value)
  {
    Choices(frame).Some? ==>
      forall i | 0 <= i < |Choices(frame).value| ::
        BlankUnder(Choices(frame).value[i], DeltaKey) && BlankUnder(Choices(frame).value[i], MessageKey)
  }

  /** Blank under one key does not affect what is under the other. */
  lemma BlankOtherKey(choice: Value, key: string, other: string)
    requires key != other
    ensures Inner(Blank(choice, key), other) == Inner(choice, other)
  {
  }

  lemma BlankMakesBlank(choice: Value, key: string)
    ensures BlankUnder(Blank(choice, key), key)
  {
  }

  /** Blank changes nothing once the key is blank already. */
  lemma BlankFixed(choice: Value, key: string)
    requires BlankUnder(choice, key)
    ensures Blank(choice, key) == choice
  {
    if Inner(choice, key).Some? && ReasoningContent in Inner(choice, key).value {
      var m := Inner(choice, key).value;
      assert m[ReasoningContent := Str("")] == m;
      assert choice.fields[key := Object(m)] == choice.fields;
    }
  }

  /** The two visits of the inner loop, written out. */
  lemma ClearChoiceUnfold(choice: Value)
    requires choice.Object?
    ensures ClearChoice(choice) == Blank(Blank(choice, DeltaKey), MessageKey)
  {
    assert ScrubbedKeys[..1] == [DeltaKey];
    assert [DeltaKey][..0] == [];
    assert BlankEach(choice, [DeltaKey]) == Blank(choice, DeltaKey);
  }

  lemma ClearChoiceScrubs(choice: Value)
    ensures BlankUnder(ClearChoice(choice), DeltaKey) && BlankUnder(ClearChoice(choice), MessageKey)
  {
    if choice.Object? {
      ClearChoiceUnfold(choice);
      var once := Blank(choice, DeltaKey);
      BlankMakesBlank(choice, DeltaKey);
      BlankOtherKey(once, MessageKey, DeltaKey);
      BlankMakesBlank(once, MessageKey);
    }
  }

  lemma ClearChoiceFixed(choice: Value)
    requires BlankUnder(choice, DeltaKey) && BlankUnder(choice, MessageKey)
    ensures ClearChoice(choice) == choice
  {
    if choice.Object? {
      ClearChoiceUnfold(choice);
      BlankFixed(choice, DeltaKey);
      BlankFixed(choice, MessageKey);
    }
  }

  /** After clearReasoning, no reasoning text is left in the frame. */
  lemma ClearedIsScrubbed(frame: Value)
    ensures Scrubbed(Cleared(frame))
  {
    if Choices(frame).Some? {
      var cs := Choices(frame).value;
      assert Choices(Cleared(frame)) == Some(ClearChoices(cs));
      forall i | 0 <= i < |cs|
        ensures BlankUnder(ClearChoices(cs)[i], DeltaKey) && BlankUnder(ClearChoices(cs)[i], MessageKey)
      {
        ClearChoiceScrubs(cs[i]);
      }
    }
  }

  /** A frame with no reasoning text is left exactly as it is. */
  lemma ScrubbedIsFixed(frame: Value)
    requires Scrubbed(frame)
    ensures Cleared(frame) == frame
  {
    if Choices(frame).Some? {
      var cs := Choices(frame).value;
      forall i | 0 <= i < |cs|
        ensures ClearChoices(cs)[i] == cs[i]
      {
        ClearChoiceFixed(cs[i]);
      }
      assert ClearChoices(cs) == cs;
      assert frame.fields[ChoicesKey := Array(cs)] == frame.fields;
    }
  }

  lemma ClearedIdempotent(frame: Value)
    ensures Cleared(Cleared(frame)) == Cleared(frame)
  {
    ClearedIsScrubbed(frame);
    ScrubbedIsFixed(Cleared(frame));
  }

  /**
   * Nothing but reasoning_content values change: the frame keeps its keys
   * and its other top-level values, `choices` keeps its length and order,
   * entries that are not objects are untouched, and each object choice
   * keeps its keys and every value except those under `delta` and
   * `message`; there the inner objects keep their keys (reasoning_content
   * is never added) and every other value.
   */
  lemma ClearedChangesOnlyReasoning(frame: Value)
    ensures Choices(frame).None? ==> Cleared(frame) == frame
    ensures Choices(frame).Some? ==>
      var cs := Choices(frame).value;
      var out := Cleared(frame);
      && out.Object? && out.fields.Keys == frame.fields.Keys
      && (forall k | k in frame.fields && k != ChoicesKey :: out.fields[k] == frame.fields[k])
      && Choices(out).Some? && |Choices(out).value| == |cs|
      && forall i | 0 <= i < |cs| :: ChoiceChangesOnlyReasoning(cs[i], Choices(out).value[i])
  {
    if Choices(frame).Some? {
      var cs := Choices(frame).value;
      forall i | 0 <= i < |cs|
        ensures ChoiceChangesOnlyReasoning(cs[i], ClearChoices(cs)[i])
      {
        ClearChoiceChangesOnlyReasoning(cs[i]);
      }
    }
  }

  ghost predicate InnerChangesOnlyReasoning(before: Value, after: Value, key: string)
  {
    && (Inner(before, key).Some? <==> Inner(after, key).Some?)
    && (Inner(before, key).Some? ==>
          && Inner(after, key).value.Keys == Inner(before, key).value.Keys
          && forall k | k in Inner(before, key).value && k != ReasoningContent ::
               Inner(after, key).value[k] == Inner(before, key).value[k])
  }

  ghost predicate ChoiceChangesOnlyReasoning(before: Value, after: Value)
  {
    if !before.Object? then after == before
    else
      && after.Object? && after.fields.Keys == before.fields.Keys
      && (forall k | k in before.fields && k !in ScrubbedKeys :: after.fields[k] == before.fields[k])
      && (forall k | k in ScrubbedKeys && k in before.fields && Inner(before, k).None? ::
            after.fields[k] == before.fields[k])
      && InnerChangesOnlyReasoning(before, after, DeltaKey)
      && InnerChangesOnlyReasoning(before, after, MessageKey)
  }

  lemma ClearChoiceChangesOnlyReasoning(choice: Value)
    ensures ChoiceChangesOnlyReasoning(choice, ClearChoice(choice))
  {
    if choice.Object? {
      ClearChoiceUnfold(choice);
      var once := Blank(choice, DeltaKey);
      BlankOtherKey(choice, DeltaKey, MessageKey);
      BlankOtherKey(once, MessageKey, DeltaKey);
    }
  }
}
