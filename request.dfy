/**
 * The request normaliser ensureReasoningField: every assistant message of
 * the request's `messages` array must carry a `reasoning_content` key, so
 * one is added, empty, where it is missing. The body is re-serialised only
 * when a message changed; otherwise the original bytes go upstream.
 */
module Request {
  import opened Wrappers
  import opened Bytes
  import opened Json

  const MessagesKey := "messages"
  const RoleKey := "role"
  const AssistantRole := "assistant"

  /** `msg["role"] == "assistant"` on an object message: the role must be that very string. */
  predicate IsAssistant(m: Value)
  {
    m.Object? && RoleKey in m.fields && m.fields[RoleKey] == Str(AssistantRole)
  }

  /** A message the normaliser has to change. */
  predicate LacksReasoning(m: Value)
  {
    IsAssistant(m) && ReasoningContent !in m.fields
  }

  predicate NeedsRewrite(ms: seq<Value>)
  {
    exists i | 0 <= i < |ms| :: LacksReasoning(ms[i])
  }

  /** The top-level `messages`, when it is present and an array. */
  function Messages(data: Value): (r: Option<seq<Value>>)
    ensures r.Some? <==> Get(data, MessagesKey).Some? && Get(data, MessagesKey).value.Array?
  {
    match Get(data, MessagesKey)
    case Some(Array(ms)) => Some(ms)
    case _ => None
  }

  /**
   * What the fix does to one message, stated without reference to how it is
   * done: a non-assistant entry (also any entry that is not an object) stays
   * as it is; an assistant message keeps every key and value it had, and
   * has `reasoning_content` afterwards, as "" if it had none.
   */
  ghost predicate MessageFilled(before: Value, after: Value)
  {
    if !IsAssistant(before) then after == before
    else
      && after.Object?
      && after.fields.Keys == before.fields.Keys + {ReasoningContent}
      && (forall k | k in before.fields :: after.fields[k] == before.fields[k])
      && (ReasoningContent !in before.fields ==> after.fields[ReasoningContent] == Str(""))
  }

  /**
   * What the fix does to the request document: with a `messages` array,
   * every other top-level field is kept, the array keeps its length and
   * order, and each entry is filled; without one, nothing changes.
   */
  ghost predicate DocumentFilled(before: Value, after: Value)
  {
    match Messages(before)
    case None => after == before
    case Some(ms) =>
      && after.Object?
      && after.fields.Keys == before.fields.Keys
      && (forall k | k in before.fields && k != MessagesKey :: after.fields[k] == before.fields[k])
      && after.fields[MessagesKey].Array?
      && |after.fields[MessagesKey].items| == |ms|
      && forall i | 0 <= i < |ms| :: MessageFilled(ms[i], after.fields[MessagesKey].items[i])
  }

  /** The body of the loop at main.go:176-181 for one message. */
  function WithReasoning(m: Value): (r: Value)
    ensures MessageFilled(m, r)
    ensures !LacksReasoning(r)
  {
    if LacksReasoning(m) then Object(m.fields[ReasoningContent := Str("")]) else m
  }

  function WithReasoningAll(ms: seq<Value>): seq<Value>
  {
    seq(|ms|, i requires 0 <= i < |ms| => WithReasoning(ms[i]))
  }

  /** The decoded request with its messages fixed in place. */
  function Filled(data: Value): Value
  {
    match Messages(data)
    case Some(ms) => Object(data.fields[MessagesKey := Array(WithReasoningAll(ms))])
    case None => data
  }

  /** The bytes ensureReasoningField returns for body. */
  function Normalized(c: Codec, body: seq<byte>): (r: seq<byte>)
    ensures r != body ==>
      && DecodeObject(c, body).Some?
      && Messages(DecodeObject(c, body).value).Some?
      && NeedsRewrite(Messages(DecodeObject(c, body).value).value)
      && c.serialize(Filled(DecodeObject(c, body).value)) == Some(r)
  {
    match DecodeObject(c, body)
    case None => body
    case Some(data) =>
      match Messages(data)
      case None => body
      case Some(ms) =>
        if !NeedsRewrite(ms) then body
        else
          match c.serialize(Filled(data))
          case Some(out) => out
          case None => body
  }

  /** ensureReasoningField: the loop over the messages with its `changed` flag. */
  method EnsureReasoningField(c: Codec, body: seq<byte>) returns (out: seq<byte>)
    ensures out == Normalized(c, body)
  {
    var decoded := DecodeObject(c, body);
    if decoded.None? {
      return body;
    }
    var data := decoded.value;
    var got := Get(data, MessagesKey);
    if !(got.Some? && got.value.Array?) {
      return body;
    }
    var messages := got.value.items;
    ghost var original := messages;
    var changed := false;
    var i := 0;
    while i < |messages|
      invariant 0 <= i <= |messages| == |original|
      invariant messages[..i] == WithReasoningAll(original[..i])
      invariant messages[i..] == original[i..]
      invariant changed <==> exists j | 0 <= j < i :: LacksReasoning(original[j])
    {
      var m := messages[i];
      assert m == original[i];
      if m.Object? && RoleKey in m.fields && m.fields[RoleKey] == Str(AssistantRole) {
        if ReasoningContent !in m.fields {
          messages := messages[i := Object(m.fields[ReasoningContent := Str("")])];
          changed := true;
        }
      }
      i := i + 1;
    }
    assert messages == WithReasoningAll(original) by {
      assert messages == messages[..i];
      assert original == original[..i];
    }
    if changed {
      var newBody := c.serialize(Object(data.fields[MessagesKey := Array(messages)]));
      if newBody.Some? {
        return newBody.value;
      }
    }
    return body;
  }

  // ---------------------------------------------------------------------
  // Properties
  // ---------------------------------------------------------------------

  /** MessageFilled leaves no choice: WithReasoning is the only way to fill a message. */
  lemma MessageFilledUnique(before: Value, after: Value)
    requires MessageFilled(before, after)
    ensures after == WithReasoning(before)
  {
    if IsAssistant(before) {
      var r := WithReasoning(before);
      assert after.fields.Keys == r.fields.Keys;
      forall k | k in after.fields
        ensures after.fields[k] == r.fields[k]
      {
        if k in before.fields {
          assert after.fields[k] == before.fields[k] == r.fields[k];
        }
      }
      assert after.fields == r.fields;
    }
  }

  /** Filled does what DocumentFilled describes ... */
  lemma FilledMeetsSpec(data: Value)
    ensures DocumentFilled(data, Filled(data))
  {
  }

  /** ... and nothing else does. */
  lemma {:induction false} DocumentFilledUnique(before: Value, after: Value)
    requires DocumentFilled(before, after)
    ensures after == Filled(before)
  {
    match Messages(before)
    case None =>
    case Some(ms) =>
      var f := Filled(before);
      var items := after.fields[MessagesKey].items;
      forall i | 0 <= i < |ms|
        ensures items[i] == WithReasoningAll(ms)[i]
      {
        MessageFilledUnique(ms[i], items[i]);
      }
      assert items == WithReasoningAll(ms);
      assert after.fields.Keys == f.fields.Keys;
      forall k | k in after.fields
        ensures after.fields[k] == f.fields[k]
      {
      }
      assert after.fields == f.fields;
  }

  /** After the fix no message lacks the key, so a second fix finds nothing to do. */
  lemma FilledHasNothingLeft(data: Value)
    requires Messages(data).Some?
    ensures Messages(Filled(data)) == Some(WithReasoningAll(Messages(data).value))
    ensures !NeedsRewrite(Messages(Filled(data)).value)
  {
  }

  /**
   * The original bytes come back when the body does not decode into a map,
   * when `messages` is missing or not an array, and when no assistant
   * message lacks the key.
   */
  lemma NormalizedPassThrough(c: Codec, body: seq<byte>)
    requires || DecodeObject(c, body).None?
             || Messages(DecodeObject(c, body).value).None?
             || !NeedsRewrite(Messages(DecodeObject(c, body).value).value)
    ensures Normalized(c, body) == body
  {
  }

  /**
   * Read back through the codec, the forwarded body is the request with
   * its messages filled as DocumentFilled says, unless Marshal failed, in
   * which case the request goes out as it came.
   */
  lemma NormalizedMeaning(c: Codec, body: seq<byte>)
    requires RoundTrips(c)
    requires DecodeObject(c, body).Some?
    ensures DecodeObject(c, Normalized(c, body)).Some?
    ensures var before := DecodeObject(c, body).value;
            var after := DecodeObject(c, Normalized(c, body)).value;
            DocumentFilled(before, after) || (after == before && c.serialize(Filled(before)).None?)
  {
    var before := DecodeObject(c, body).value;
    var out := Normalized(c, body);
    if out != body {
      assert c.parse(out) == Some(Filled(before));
      FilledMeetsSpec(before);
    } else if Messages(before).Some? && NeedsRewrite(Messages(before).value) && c.serialize(Filled(before)).Some? {
      var f := Filled(before);
      assert c.parse(c.serialize(f).value) == Some(f);
      FilledMeetsSpec(before);
    } else if Messages(before).Some? && !NeedsRewrite(Messages(before).value) {
      var ms := Messages(before).value;
      forall i | 0 <= i < |ms|
        ensures MessageFilled(ms[i], ms[i])
      {
        assert !LacksReasoning(ms[i]);
      }
    }
  }

  /** Applying the normaliser to its own output returns that output byte for byte. */
  lemma NormalizedIdempotent(c: Codec, body: seq<byte>)
    requires RoundTrips(c)
    ensures Normalized(c, Normalized(c, body)) == Normalized(c, body)
  {
    var out := Normalized(c, body);
    if out != body {
      var data := DecodeObject(c, body).value;
      assert c.parse(out) == Some(Filled(data));
      FilledHasNothingLeft(data);
      NormalizedPassThrough(c, out);
    }
  }
}
