/**
 * Byte strings and the two helpers of Go's `bytes` package that the proxy
 * uses on event-stream lines: HasPrefix and TrimSpace.
 */
module Bytes {

  newtype byte = x: int | 0 <= x < 256

  /** The line delimiter handed to bufio.Reader.ReadBytes. */
  const LF: byte := 10

  /** bytes.HasPrefix: s begins with prefix, byte for byte. */
  function HasPrefix(s: seq<byte>, prefix: seq<byte>): (b: bool)
    ensures b <==> |prefix| <= |s| && forall i | 0 <= i < |prefix| :: s[i] == prefix[i]
    ensures b ==> s == prefix + s[|prefix|..]
  {
    |prefix| <= |s| && s[..|prefix|] == prefix
  }

  /** The bytes of a sequence of chunks written one after the other. */
  function Flatten(chunks: seq<seq<byte>>): seq<byte>
  {
    if chunks == [] then [] else Flatten(chunks[..|chunks| - 1]) + chunks[|chunks| - 1]
  }

  lemma {:induction false} FlattenAppend(a: seq<seq<byte>>, b: seq<seq<byte>>)
    ensures Flatten(a + b) == Flatten(a) + Flatten(b)
    decreases |b|
  {
    if b == [] {
      assert a + b == a;
    } else {
      var init := b[..|b| - 1];
      var last := b[|b| - 1];
      assert (a + b)[..|a + b| - 1] == a + init;
      assert (a + b)[|a + b| - 1] == last;
      assert Flatten(a + b) == Flatten(a + init) + last;
      FlattenAppend(a, init);
      assert Flatten(b) == Flatten(init) + last;
    }
  }

  // ---------------------------------------------------------------------
  // White space, as Go's unicode.IsSpace defines it, in its UTF-8 encoding:
  // the ASCII characters tab, newline, vertical tab, form feed, carriage
  // return and space; U+0085 and U+00A0 (two bytes); U+1680, U+2000..U+200A,
  // U+2028, U+2029, U+202F, U+205F and U+3000 (three bytes).
  // ---------------------------------------------------------------------

  predicate IsAsciiSpace(b: byte)
  {
    b == 9 || b == 10 || b == 11 || b == 12 || b == 13 || b == 32
  }

  predicate IsSpace2(a: byte, b: byte)
  {
    a == 0xC2 && (b == 0x85 || b == 0xA0)
  }

  predicate IsSpace3(a: byte, b: byte, c: byte)
  {
    || (a == 0xE1 && b == 0x9A && c == 0x80)
    || (a == 0xE2 && b == 0x80 && (0x80 <= c <= 0x8A || c == 0xA8 || c == 0xA9 || c == 0xAF))
    || (a == 0xE2 && b == 0x81 && c == 0x9F)
    || (a == 0xE3 && b == 0x80 && c == 0x80)
  }

  /** Width of the white-space character that s starts with; 0 when it starts with none. */
  function LeadingSpace(s: seq<byte>): (w: nat)
    ensures w <= |s|
  {
    if |s| >= 1 && IsAsciiSpace(s[0]) then 1
    else if |s| >= 2 && IsSpace2(s[0], s[1]) then 2
    else if |s| >= 3 && IsSpace3(s[0], s[1], s[2]) then 3
    else 0
  }

  /** Width of the white-space character that s ends with; 0 when it ends with none. */
  function TrailingSpace(s: seq<byte>): (w: nat)
    ensures w <= |s|
  {
    var n := |s|;
    if n >= 1 && IsAsciiSpace(s[n - 1]) then 1
    else if n >= 2 && IsSpace2(s[n - 2], s[n - 1]) then 2
    else if n >= 3 && IsSpace3(s[n - 3], s[n - 2], s[n - 1]) then 3
    else 0
  }

  /** t is a run of white-space characters, read from the front. */
  predicate AllLeadingSpace(t: seq<byte>)
    decreases |t|
  {
    t == [] || (LeadingSpace(t) > 0 && AllLeadingSpace(t[LeadingSpace(t)..]))
  }

  /** t is a run of white-space characters, read from the back. */
  predicate AllTrailingSpace(t: seq<byte>)
    decreases |t|
  {
    t == [] || (TrailingSpace(t) > 0 && AllTrailingSpace(t[..|t| - TrailingSpace(t)]))
  }

  /** The white-space character s starts with is also the one any long enough prefix starts with. */
  lemma LeadingSpaceOfPrefix(s: seq<byte>, m: nat)
    requires 0 < LeadingSpace(s) <= m <= |s|
    ensures LeadingSpace(s[..m]) == LeadingSpace(s)
  {
    var p := s[..m];
    assert p[0] == s[0];
    if m >= 2 { assert p[1] == s[1]; }
    if m >= 3 { assert p[2] == s[2]; }
  }

  /** The white-space character s ends with is also the one any long enough suffix ends with. */
  lemma TrailingSpaceOfSuffix(s: seq<byte>, m: nat)
    requires 0 < TrailingSpace(s) <= |s| - m
    ensures TrailingSpace(s[m..]) == TrailingSpace(s)
  {
    var t := s[m..];
    var n := |s|;
    assert t[|t| - 1] == s[n - 1];
    if |t| >= 2 { assert t[|t| - 2] == s[n - 2]; }
    if |t| >= 3 { assert t[|t| - 3] == s[n - 3]; }
  }

  /** Width of the run of white space s starts with. */
  function LeadingRun(s: seq<byte>): (n: nat)
    ensures n <= |s| && LeadingSpace(s[n..]) == 0
    ensures AllLeadingSpace(s[..n])
    decreases |s|
  {
    var w := LeadingSpace(s);
    if w == 0 then 0
    else
      var t := s[w..];
      var n := LeadingRun(t);
      assert t[n..] == s[w + n..];
      LeadingSpaceOfPrefix(s, w + n);
      assert s[..w + n][w..] == t[..n];
      w + n
  }

  /**
   * Drops leading white space: what is left is a suffix of s that starts
   * with none, and what was dropped is white space only.
   */
  function TrimLeft(s: seq<byte>): (r: seq<byte>)
    ensures |r| <= |s| && r == s[|s| - |r|..]
    ensures LeadingSpace(r) == 0
    ensures AllLeadingSpace(s[..|s| - |r|])
  {
    s[LeadingRun(s)..]
  }

  /**
   * Drops trailing white space: what is left is a prefix of s that ends
   * with none, and what was dropped is white space only.
   */
  function TrimRight(s: seq<byte>): (r: seq<byte>)
    ensures |r| <= |s| && r == s[..|r|]
    ensures TrailingSpace(r) == 0
    ensures AllTrailingSpace(s[|r|..])
    decreases |s|
  {
    var w := TrailingSpace(s);
    if w == 0 then
      assert s[|s|..] == [];
      s
    else
      var t := s[..|s| - w];
      var r := TrimRight(t);
      assert t[..|r|] == s[..|r|];
      TrailingSpaceOfSuffix(s, |r|);
      assert s[|r|..][..|s| - |r| - w] == t[|r|..];
      r
  }

  /**
   * bytes.TrimSpace: the slice of s left when its leading and its trailing
   * white space are cut off. It neither starts nor ends with white space.
   */
  function TrimSpace(s: seq<byte>): (r: seq<byte>)
    ensures LeadingSpace(r) == 0 && TrailingSpace(r) == 0
    ensures exists i, j | 0 <= i <= j <= |s| ::
      r == s[i..j] && AllLeadingSpace(s[..i]) && AllTrailingSpace(s[j..])
  {
    var left := TrimLeft(s);
    var r := TrimRight(left);
    PrefixKeepsNoLeadingSpace(left, r);
    var i := |s| - |left|;
    var j := i + |r|;
    assert r == s[i..j];
    assert left[|r|..] == s[j..];
    r
  }

  /** A prefix of a string that starts with no white space starts with none either. */
  lemma PrefixKeepsNoLeadingSpace(s: seq<byte>, p: seq<byte>)
    requires LeadingSpace(s) == 0 && |p| <= |s| && p == s[..|p|]
    ensures LeadingSpace(p) == 0
  {
    if |p| >= 1 { assert p[0] == s[0]; }
    if |p| >= 2 { assert p[1] == s[1]; }
    if |p| >= 3 { assert p[2] == s[2]; }
  }

  lemma TrimSpaceIdempotent(s: seq<byte>)
    ensures TrimSpace(TrimSpace(s)) == TrimSpace(s)
  {
  }

  /** Printable ASCII other than space: a byte that can neither begin nor end white space. */
  predicate IsPrintable(b: byte)
  {
    33 <= b <= 126
  }

  /**
   * A string whose first and last bytes are printable comes back out of
   * TrimSpace unchanged after a newline is appended to it.
   */
  lemma {:induction false} TrimSpaceDropsNewline(s: seq<byte>)
    requires |s| > 0 && IsPrintable(s[0]) && IsPrintable(s[|s| - 1])
    ensures TrimSpace(s + [LF]) == s
  {
    var t := s + [LF];
    assert t[0] == s[0];
    assert LeadingSpace(t) == 0;
    assert TrimLeft(t) == t;
    assert TrailingSpace(t) == 1;
    assert t[..|t| - 1] == s;
    assert TrailingSpace(s) == 0;
    assert TrimRight(s) == s;
  }
}
