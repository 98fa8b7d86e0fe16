/**
 * How handleProxy relays the upstream response body: only a 200 response
 * whose Content-Type is exactly `text/event-stream` goes through the
 * event-stream rewrite; every other body is copied as it is.
 */
module Relay {
  import opened Bytes
  import opened Json
  import opened Stream

  const StatusOK := 200
  const ContentTypeKey := "Content-Type"
  const EventStream := "text/event-stream"

  /** Response headers by canonical name, each with its values in order. */
  type Header = map<string, seq<string>>

  /** http.Header.Get: the first value of the header, "" when there is none. */
  function HeaderGet(h: Header, key: string): (v: string)
    ensures key in h && |h[key]| > 0 ==> v == h[key][0]
    ensures key !in h || h[key] == [] ==> v == ""
  {
    if key in h && |h[key]| > 0 then h[key][0] else ""
  }

  /** The routing check: the status is 200 and the content type matches exactly. */
  function StreamTransformed(status: int, h: Header): (b: bool)
    ensures b <==> && status == StatusOK && ContentTypeKey in h && |h[ContentTypeKey]| > 0
                   && h[ContentTypeKey][0] == EventStream
  {
    status == StatusOK && HeaderGet(h, ContentTypeKey) == EventStream
  }

  /** The body the client receives for the bytes upstream delivered before its error. */
  function RelayedBody(c: Codec, status: int, h: Header, upstream: seq<byte>): (r: seq<byte>)
    ensures !StreamTransformed(status, h) ==> r == upstream
    ensures StreamTransformed(status, h) ==> r == Flatten(StreamOutput(c, upstream))
  {
    if StreamTransformed(status, h) then Flatten(StreamOutput(c, upstream)) else upstream
  }

  /** main.go:148-159 without the debug branch: io.Copy or processSSEResponse. */
  method RelayResponseBody(c: Codec, status: int, h: Header, body: LineReader, w: Sink)
    modifies body, w
    ensures body.unread == []
    ensures Flatten(w.written) == Flatten(old(w.written)) + RelayedBody(c, status, h, old(body.unread))
    ensures StreamTransformed(status, h) ==> w.written == old(w.written) + StreamOutput(c, old(body.unread))
    ensures !StreamTransformed(status, h) ==> w.written == old(w.written) + [old(body.unread)]
  {
    var isSSE := HeaderGet(h, ContentTypeKey) == EventStream;
    if status != StatusOK || !isSSE {
      var all := body.ReadAll();
      w.Write(all);
      FlattenAppend(old(w.written), [all]);
      assert Flatten([all]) == all by { assert [all][..0] == []; }
      return;
    }
    ProcessSSEResponse(c, body, w);
    FlattenAppend(old(w.written), StreamOutput(c, old(body.unread)));
  }

  // ---------------------------------------------------------------------
  // Properties
  // ---------------------------------------------------------------------

  /** Every response other than a 200 event stream reaches the client byte for byte. */
  lemma OtherResponsesUntouched(c: Codec, status: int, h: Header, upstream: seq<byte>)
    requires status != StatusOK || HeaderGet(h, ContentTypeKey) != EventStream
    ensures RelayedBody(c, status, h, upstream) == upstream
  {
  }

  /**
   * The match is exact: an event stream announced with a parameter, as in
   * `text/event-stream; charset=utf-8`, is copied without the rewrite.
   */
  lemma ContentTypeParameterDisablesRewrite(c: Codec, upstream: seq<byte>)
    ensures var h := map[ContentTypeKey := ["text/event-stream; charset=utf-8"]];
      !StreamTransformed(StatusOK, h) && RelayedBody(c, StatusOK, h, upstream) == upstream
  {
    var h := map[ContentTypeKey := ["text/event-stream; charset=utf-8"]];
    assert HeaderGet(h, ContentTypeKey) == "text/event-stream; charset=utf-8";
    assert |"text/event-stream; charset=utf-8"| != |EventStream|;
  }

  /**
   * On the rewritten path an unterminated last fragment is lost: the
   * client gets the rewritten complete lines and nothing of the fragment.
   */
  lemma StreamDropsFragment(c: Codec, status: int, h: Header, upstream: seq<byte>)
    requires StreamTransformed(status, h)
    requires forall i | 0 <= i < |Lines(upstream)| :: !HasPrefix(Lines(upstream)[i], DataPrefix)
    ensures RelayedBody(c, status, h, upstream) + Fragment(upstream) == upstream
  {
    StreamWithoutDataLines(c, upstream);
  }

  /** Relaying the relayed body again, with the same status and headers, changes nothing. */
  lemma RelayIdempotent(c: Codec, status: int, h: Header, upstream: seq<byte>)
    requires RoundTrips(c) && CompactOutput(c)
    ensures RelayedBody(c, status, h, RelayedBody(c, status, h, upstream)) == RelayedBody(c, status, h, upstream)
  {
    if StreamTransformed(status, h) {
      StreamIdempotent(c, upstream);
    }
  }
}
