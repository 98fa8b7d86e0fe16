/**
 * The event-stream rewrite of processSSEResponse: the upstream body is read
 * one `\n`-terminated line at a time; a `data: ` line whose payload decodes
 * into a map is re-emitted with its reasoning blanked, every other line is
 * forwarded byte for byte, and reading stops at the first read error.
 */
module Stream {
  import opened Wrappers
  import opened Bytes
  import opened Json
  import opened Frames

  /** The bytes of "data: ". */
  const DataPrefix: seq<byte> := [0x64, 0x61, 0x74, 0x61, 0x3A, 0x20]

  /** The bytes of "[DONE]", the end-of-stream sentinel. */
  const DoneSentinel: seq<byte> := [0x5B, 0x44, 0x4F, 0x4E, 0x45, 0x5D]

  /** The payload of a data line: the prefix cut off, white space trimmed. */
  function Payload(line: seq<byte>): seq<byte>
    requires HasPrefix(line, DataPrefix)
  {
    TrimSpace(line[|DataPrefix|..])
  }

  /**
   * What the body of the read loop writes for one line. Only a data line
   * whose payload is not [DONE] and decodes can change, and then into
   * "data: ", the marshalled cleared frame and a newline.
   */
  function TransformLine(c: Codec, line: seq<byte>): (r: seq<byte>)
    ensures r != line ==>
      && HasPrefix(line, DataPrefix) && Payload(line) != DoneSentinel
      && DecodeObject(c, Payload(line)).Some?
      && |r| > |DataPrefix| && HasPrefix(r, DataPrefix) && r[|r| - 1] == LF
      && c.serialize(Cleared(DecodeObject(c, Payload(line)).value)) == Some(r[|DataPrefix|..|r| - 1])
  {
    if !HasPrefix(line, DataPrefix) then line
    else
      var payload := Payload(line);
      if payload == DoneSentinel then line
      else
        match DecodeObject(c, payload)
        case None => line
        case Some(frame) =>
          match c.serialize(Cleared(frame))
          case None => line
          case Some(encoded) => DataPrefix + encoded + [LF]
  }

  function TransformAll(c: Codec, lines: seq<seq<byte>>): seq<seq<byte>>
  {
    seq(|lines|, i requires 0 <= i < |lines| => TransformLine(c, lines[i]))
  }

  // ---------------------------------------------------------------------
  // Splitting a byte stream into the lines bufio.Reader.ReadBytes('\n')
  // returns
  // ---------------------------------------------------------------------

  predicate NoNewline(s: seq<byte>)
  {
    forall i | 0 <= i < |s| :: s[i] != LF
  }

  /** A complete line: it ends with its only newline. */
  predicate IsLine(l: seq<byte>)
  {
    |l| > 0 && l[|l| - 1] == LF && NoNewline(l[..|l| - 1])
  }

  /** Position of the first newline of s, |s| when there is none. */
  function NewlineIndex(s: seq<byte>): (k: nat)
    ensures k <= |s|
    ensures k < |s| ==> s[k] == LF
  {
    if |s| == 0 || s[0] == LF then 0 else 1 + NewlineIndex(s[1..])
  }

  /** No newline comes before the first one. */
  lemma {:induction false} NewlineIndexFirst(s: seq<byte>)
    ensures NoNewline(s[..NewlineIndex(s)])
  {
    if |s| > 0 && s[0] != LF {
      NewlineIndexFirst(s[1..]);
      var k := NewlineIndex(s);
      assert s[..k] == [s[0]] + s[1..][..k - 1];
    }
  }

  lemma {:induction false} NewlineIndexAtMost(s: seq<byte>, j: int)
    requires 0 <= j < |s| && s[j] == LF
    ensures NewlineIndex(s) <= j
  {
    if s[0] != LF {
      NewlineIndexAtMost(s[1..], j - 1);
    }
  }

  lemma {:induction false} NewlineIndexAtLeast(s: seq<byte>, j: int)
    requires 0 <= j <= |s| && NoNewline(s[..j])
    ensures j <= NewlineIndex(s)
  {
    if j > 0 {
      assert s[..j][0] == s[0];
      assert s[1..][..j - 1] == s[..j][1..];
      NewlineIndexAtLeast(s[1..], j - 1);
    }
  }

  /** s begins with a complete line exactly when it holds a newline. */
  lemma FirstLine(s: seq<byte>)
    ensures var k := NewlineIndex(s);
      && (k == |s| ==> Lines(s) == [] && Fragment(s) == s)
      && (k < |s| ==> IsLine(s[..k + 1]) && Lines(s) == [s[..k + 1]] + Lines(s[k + 1..]))
  {
    var k := NewlineIndex(s);
    if k < |s| {
      LineAtFront(s, k);
    } else {
      assert Lines(s) == [] && Fragment(s) == s;
    }
  }

  lemma LineAtFront(s: seq<byte>, k: nat)
    requires k == NewlineIndex(s) < |s|
    ensures IsLine(s[..k + 1])
    ensures Lines(s) == [s[..k + 1]] + Lines(s[k + 1..])
  {
    assert IsLine(s[..k + 1]) by {
      NewlineIndexFirst(s);
      assert s[..k + 1][..k] == s[..k];
    }
  }

  /** The complete lines of s, in order. */
  function Lines(s: seq<byte>): seq<seq<byte>>
    decreases |s|
  {
    var k := NewlineIndex(s);
    if k == |s| then [] else [s[..k + 1]] + Lines(s[k + 1..])
  }

  /** What follows the last newline of s: the part a read error or EOF cuts off. */
  function Fragment(s: seq<byte>): seq<byte>
    decreases |s|
  {
    var k := NewlineIndex(s);
    if k == |s| then s else Fragment(s[k + 1..])
  }

  /** The lines followed by the fragment are the stream itself: no byte lost, none reordered. */
  lemma {:induction false} LinesRebuild(s: seq<byte>)
    ensures Flatten(Lines(s)) + Fragment(s) == s
    decreases |s|
  {
    var k := NewlineIndex(s);
    if k < |s| {
      var a := s[..k + 1];
      var b := s[k + 1..];
      assert Lines(s) == [a] + Lines(b);
      assert Fragment(s) == Fragment(b);
      LinesRebuild(b);
      FlattenCons(a, Lines(b));
      assert s == a + b;
    } else {
      assert Lines(s) == [];
      assert Fragment(s) == s;
    }
  }

  lemma FlattenCons(head: seq<byte>, tail: seq<seq<byte>>)
    ensures Flatten([head] + tail) == head + Flatten(tail)
  {
    FlattenAppend([head], tail);
    assert [head][..0] == [];
  }

  /** Every piece is a complete line and the fragment holds no newline. */
  lemma {:induction false} LinesAreLines(s: seq<byte>)
    ensures forall i | 0 <= i < |Lines(s)| :: IsLine(Lines(s)[i])
    ensures NoNewline(Fragment(s))
    decreases |s|
  {
    var k := NewlineIndex(s);
    NewlineIndexFirst(s);
    if k < |s| {
      LinesAreLines(s[k + 1..]);
      assert s[..k + 1][..k] == s[..k];
    }
  }

  /** There are as many complete lines as newlines. */
  lemma {:induction false} LinesCount(s: seq<byte>)
    ensures |Lines(s)| == multiset(s)[LF]
    decreases |s|
  {
    var k := NewlineIndex(s);
    NewlineIndexFirst(s);
    NoNewlineCount(s[..k]);
    if k == |s| {
      assert Lines(s) == [];
      assert s[..k] == s;
    } else {
      assert Lines(s) == [s[..k + 1]] + Lines(s[k + 1..]);
      LinesCount(s[k + 1..]);
      assert s == s[..k] + [LF] + s[k + 1..];
      var m := multiset(s[..k]) + multiset([LF]) + multiset(s[k + 1..]);
      assert multiset(s) == m;
      assert m[LF] == multiset(s[..k])[LF] + 1 + multiset(s[k + 1..])[LF];
    }
  }

  lemma {:induction false} NoNewlineCount(s: seq<byte>)
    requires NoNewline(s)
    ensures multiset(s)[LF] == 0
  {
    assert LF !in s;
  }

  /** Splitting undoes concatenation: complete lines and a newline-free tail come back as they were. */
  lemma {:induction false} LinesOfFlatten(ls: seq<seq<byte>>, tail: seq<byte>)
    requires forall i | 0 <= i < |ls| :: IsLine(ls[i])
    requires NoNewline(tail)
    ensures Lines(Flatten(ls) + tail) == ls
    ensures Fragment(Flatten(ls) + tail) == tail
    decreases |ls|
  {
    if ls == [] {
      assert Flatten(ls) + tail == tail;
      assert tail[..|tail|] == tail;
      NewlineIndexAtLeast(tail, |tail|);
    } else {
      var head := ls[0];
      var rest := ls[1..];
      assert ls == [head] + rest;
      FlattenCons(head, rest);
      var s := Flatten(ls) + tail;
      assert s == head + (Flatten(rest) + tail);
      var n := |head|;
      assert s[..n - 1] == head[..n - 1];
      assert s[n - 1] == LF;
      NewlineIndexAtLeast(s, n - 1);
      NewlineIndexAtMost(s, n - 1);
      assert s[..n] == head;
      assert s[n..] == Flatten(rest) + tail;
      LinesOfFlatten(rest, tail);
    }
  }

  // ---------------------------------------------------------------------
  // Properties of the line transform
  // ---------------------------------------------------------------------

  /**
   * A line is forwarded as it is when it does not start with "data: ", when
   * its payload is "[DONE]", or when the payload does not decode into a
   * map (or Marshal fails); otherwise it becomes "data: ", the scrubbed
   * frame re-serialised, and a newline.
   */
  lemma TransformLineCases(c: Codec, line: seq<byte>)
    ensures !HasPrefix(line, DataPrefix) ==> TransformLine(c, line) == line
    ensures HasPrefix(line, DataPrefix) && Payload(line) == DoneSentinel ==> TransformLine(c, line) == line
    ensures HasPrefix(line, DataPrefix) && DecodeObject(c, Payload(line)).None? ==> TransformLine(c, line) == line
    ensures HasPrefix(line, DataPrefix) && Payload(line) != DoneSentinel && DecodeObject(c, Payload(line)).Some? ==>
      var frame := DecodeObject(c, Payload(line)).value;
      TransformLine(c, line) == (if c.serialize(Cleared(frame)).Some?
                                 then DataPrefix + c.serialize(Cleared(frame)).value + [LF]
                                 else line)
  {
    if HasPrefix(line, DataPrefix) && Payload(line) != DoneSentinel {
      match DecodeObject(c, Payload(line))
      case None =>
      case Some(frame) =>
    }
  }

  /** The "data: " prefix survives, and so does a terminating newline. */
  lemma TransformLineKeepsShape(c: Codec, line: seq<byte>)
    ensures HasPrefix(TransformLine(c, line), DataPrefix) <==> HasPrefix(line, DataPrefix)
    ensures |line| > 0 && line[|line| - 1] == LF ==>
      |TransformLine(c, line)| > 0 && TransformLine(c, line)[|TransformLine(c, line)| - 1] == LF
  {
    if HasPrefix(line, DataPrefix) && Payload(line) != DoneSentinel {
      match DecodeObject(c, Payload(line))
      case None =>
      case Some(frame) =>
        match c.serialize(Cleared(frame))
        case None =>
        case Some(encoded) => PrefixedLineShape(encoded);
    }
  }

  lemma PrefixedLineShape(encoded: seq<byte>)
    ensures var r := DataPrefix + encoded + [LF];
      HasPrefix(r, DataPrefix) && r[|r| - 1] == LF
  {
    var r := DataPrefix + encoded + [LF];
    assert r[..|DataPrefix|] == DataPrefix;
  }

  /** A rewritten line, for a codec that marshals compactly. */
  lemma RewrittenLine(encoded: seq<byte>)
    requires IsCompact(encoded)
    ensures var r := DataPrefix + encoded + [LF];
      && IsLine(r) && HasPrefix(r, DataPrefix) && Payload(r) == encoded
  {
    var r := DataPrefix + encoded + [LF];
    assert r[..|r| - 1] == DataPrefix + encoded;
    assert NoNewline(DataPrefix + encoded);
    assert r[..|DataPrefix|] == DataPrefix;
    assert r[|DataPrefix|..] == encoded + [LF];
    TrimSpaceDropsNewline(encoded);
    assert Payload(r) == TrimSpace(encoded + [LF]);
  }

  /** With a compact codec, every line the transform writes for a complete line is complete. */
  lemma TransformKeepsLines(c: Codec, line: seq<byte>)
    requires CompactOutput(c)
    requires IsLine(line)
    ensures IsLine(TransformLine(c, line))
  {
    var r := TransformLine(c, line);
    if r != line {
      var frame := DecodeObject(c, Payload(line)).value;
      RewrittenLine(c.serialize(Cleared(frame)).value);
    }
  }

  /**
   * What a rewritten line carries is a frame without reasoning text: read
   * back through the codec its payload decodes to a scrubbed frame.
   */
  lemma RewrittenFrameIsScrubbed(c: Codec, line: seq<byte>)
    requires RoundTrips(c) && CompactOutput(c)
    requires TransformLine(c, line) != line
    ensures var r := TransformLine(c, line);
      && HasPrefix(r, DataPrefix)
      && DecodeObject(c, Payload(r)).Some?
      && Scrubbed(DecodeObject(c, Payload(r)).value)
  {
    var frame := DecodeObject(c, Payload(line)).value;
    var encoded := c.serialize(Cleared(frame)).value;
    RewrittenLine(encoded);
    assert c.parse(encoded) == Some(Cleared(frame));
    ClearedIsScrubbed(frame);
  }

  /** Sending a line through the proxy twice gives what sending it once gives. */
  lemma TransformLineIdempotent(c: Codec, line: seq<byte>)
    requires RoundTrips(c) && CompactOutput(c)
    ensures TransformLine(c, TransformLine(c, line)) == TransformLine(c, line)
  {
    var r := TransformLine(c, line);
    if r != line {
      var frame := DecodeObject(c, Payload(line)).value;
      var cleared := Cleared(frame);
      var encoded := c.serialize(cleared).value;
      RewrittenLine(encoded);
      if encoded != DoneSentinel {
        assert c.parse(encoded) == Some(cleared);
        assert DecodeObject(c, encoded) == Some(cleared);
        ClearedIdempotent(frame);
      }
    }
  }

  // ---------------------------------------------------------------------
  // Properties of the whole stream
  // ---------------------------------------------------------------------

  /** The chunks the read loop writes for the bytes upstream delivered before its error. */
  function StreamOutput(c: Codec, upstream: seq<byte>): (r: seq<seq<byte>>)
    ensures |r| == |Lines(upstream)| == multiset(upstream)[LF]
    ensures forall i | 0 <= i < |r| :: r[i] == TransformLine(c, Lines(upstream)[i])
  {
    LinesCount(upstream);
    TransformAll(c, Lines(upstream))
  }

  /**
   * A stream without data lines is forwarded byte for byte, except for an
   * unterminated last fragment, which is dropped.
   */
  lemma StreamWithoutDataLines(c: Codec, upstream: seq<byte>)
    requires forall i | 0 <= i < |Lines(upstream)| :: !HasPrefix(Lines(upstream)[i], DataPrefix)
    ensures Flatten(StreamOutput(c, upstream)) + Fragment(upstream) == upstream
  {
    assert StreamOutput(c, upstream) == Lines(upstream);
    LinesRebuild(upstream);
  }

  /** Proxying the proxy's own output changes nothing more. */
  lemma StreamIdempotent(c: Codec, upstream: seq<byte>)
    requires RoundTrips(c) && CompactOutput(c)
    ensures StreamOutput(c, Flatten(StreamOutput(c, upstream))) == StreamOutput(c, upstream)
  {
    var out := StreamOutput(c, upstream);
    LinesAreLines(upstream);
    forall i | 0 <= i < |out|
      ensures IsLine(out[i])
    {
      TransformKeepsLines(c, Lines(upstream)[i]);
    }
    assert Flatten(out) + [] == Flatten(out);
    LinesOfFlatten(out, []);
    forall i | 0 <= i < |out|
      ensures TransformLine(c, out[i]) == out[i]
    {
      TransformLineIdempotent(c, Lines(upstream)[i]);
    }
  }

  // ---------------------------------------------------------------------
  // The reader, the writer and the read loop
  // ---------------------------------------------------------------------

  /**
   * The bufio.Reader over the upstream body. `unread` holds the bytes the
   * body still delivers before it reports an error (io.EOF or a transport
   * error).
   */
  class LineReader {
    var unread: seq<byte>

    constructor (source: seq<byte>)
      ensures unread == source
    {
      unread := source;
    }

    /**
     * ReadBytes('\n'): the next line with its newline; at the end, what is
     * left together with an error.
     */
    method ReadBytes() returns (line: seq<byte>, err: bool)
      modifies this
      ensures err <==> Lines(old(unread)) == []
      ensures !err ==> IsLine(line) && line + unread == old(unread) && |unread| < |old(unread)|
      ensures !err ==> Lines(old(unread)) == [line] + Lines(unread)
      ensures err ==> line == old(unread) && unread == []
    {
      var k := FindNewline();
      FirstLine(unread);
      if k == |unread| {
        line := unread;
        unread := [];
        err := true;
      } else {
        ghost var rest := unread;
        line := unread[..k + 1];
        unread := unread[k + 1..];
        assert line + unread == rest;
        assert Lines(rest) == [line] + Lines(unread);
        err := false;
      }
    }

    /** The scan inside ReadBytes: the offset of the next newline, or of the end. */
    method FindNewline() returns (k: nat)
      ensures k == NewlineIndex(unread)
    {
      var i := 0;
      while i < |unread| && unread[i] != LF
        invariant i <= |unread|
        invariant i <= NewlineIndex(unread)
      {
        i := i + 1;
      }
      if i < |unread| {
        NewlineIndexAtMost(unread, i);
      }
      k := i;
    }

    /** io.Copy: everything up to the error. */
    method ReadAll() returns (data: seq<byte>)
      modifies this
      ensures data == old(unread) && unread == []
    {
      data := unread;
      unread := [];
    }
  }

  /** The client's http.ResponseWriter: the chunks written to it, in order. */
  class Sink {
    var written: seq<seq<byte>>

    constructor ()
      ensures written == []
    {
      written := [];
    }

    method Write(chunk: seq<byte>)
      modifies this
      ensures written == old(written) + [chunk]
    {
      written := written + [chunk];
    }
  }

  /** The body of the read loop for one line (main.go:203-217). */
  method RewriteLine(c: Codec, line: seq<byte>) returns (out: seq<byte>)
    ensures out == TransformLine(c, line)
  {
    TransformLineCases(c, line);
    out := line;
    if !HasPrefix(line, DataPrefix) {
      return;
    }
    var payload := TrimSpace(line[|DataPrefix|..]);
    assert payload == Payload(line);
    if payload == DoneSentinel {
      return;
    }
    var data := DecodeObject(c, payload);
    if data.None? {
      return;
    }
    var cleared := ClearReasoning(data.value);
    var newData := c.serialize(cleared);
    if newData.Some? {
      out := DataPrefix + newData.value + [LF];
    }
  }

  lemma TransformAllSnoc(c: Codec, done: seq<seq<byte>>, line: seq<byte>)
    ensures TransformAll(c, done + [line]) == TransformAll(c, done) + [TransformLine(c, line)]
  {
    var a := TransformAll(c, done + [line]);
    var b := TransformAll(c, done) + [TransformLine(c, line)];
    assert |a| == |b|;
    forall i | 0 <= i < |a|
      ensures a[i] == b[i]
    {
      if i < |done| {
        assert (done + [line])[i] == done[i];
      }
    }
  }

  /** Bookkeeping of the read loop: one line moves from what is left to what is done. */
  lemma ConsumeLine(done: seq<seq<byte>>, line: seq<byte>, after: seq<seq<byte>>,
                    before: seq<seq<byte>>, expected: seq<seq<byte>>)
    requires before == [line] + after && done + before == expected
    ensures (done + [line]) + after == expected
  {
  }

  /** processSSEResponse: the read loop, one written chunk per complete line. */
  method ProcessSSEResponse(c: Codec, body: LineReader, w: Sink)
    modifies body, w
    ensures body.unread == []
    ensures w.written == old(w.written) + StreamOutput(c, old(body.unread))
  {
    ghost var expected := Lines(body.unread);
    ghost var done: seq<seq<byte>> := [];
    while true
      invariant done + Lines(body.unread) == expected
      invariant w.written == old(w.written) + TransformAll(c, done)
      decreases |body.unread|
    {
      ghost var before := Lines(body.unread);
      var line, err := body.ReadBytes();
      if err {
        assert done == expected by { assert done + [] == done; }
        break;
      }
      ghost var after := Lines(body.unread);
      var out := RewriteLine(c, line);
      w.Write(out);
      TransformAllSnoc(c, done, line);
      ConsumeLine(done, line, after, before, expected);
      done := done + [line];
    }
  }
}
