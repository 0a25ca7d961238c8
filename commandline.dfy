// The hex4 framing of `ProtoBinaryToText::OnStdoutReceived`, as
// client/commandline_test.cpp pins it down: the stream is a run of frames,
// each four hexadecimal digits giving the payload length followed by the
// payload; every complete frame is rendered once, and an incomplete one
// waits in a buffer until the rest arrives, however the stream is chunked.

module Hex4Frames {
  import opened Text

  /** The stream starts with four hexadecimal digits. */
  predicate HexHeader(s: string)
  {
    |s| >= 4 && AllHex(s[..4])
  }

  predicate AllHex(s: string)
  {
    forall i :: 0 <= i < |s| ==> IsHexDigit(s[i])
  }

  /** The payload length a header announces. */
  function FrameLength(s: string): (n: nat)
    requires HexHeader(s)
    ensures n < 0x1_0000
  {
    HexValueBound(s[..4]);
    HexValue(s[..4])
  }

  lemma {:induction false} HexValueBound(s: string)
    requires AllHex(s)
    ensures HexValue(s) < Pow16(|s|)
  {
    if s != [] {
      HexValueBound(s[..|s| - 1]);
    }
  }

  function Pow16(k: nat): (r: nat)
    ensures r >= 1
  {
    if k == 0 then 1 else 16 * Pow16(k - 1)
  }

  /** The stream starts with a whole frame. */
  predicate HasFrame(s: string)
  {
    HexHeader(s) && |s| >= 4 + FrameLength(s)
  }

  /** The payloads of the complete frames at the front of a stream, and what is left after them. */
  datatype Decoded = Decoded(payloads: seq<string>, rest: string)

  function Frames(s: string): (d: Decoded)
    ensures !HasFrame(d.rest)
    decreases |s|
  {
    if HasFrame(s) then
      var n := FrameLength(s);
      var d := Frames(s[4 + n..]);
      Decoded([s[4..4 + n]] + d.payloads, d.rest)
    else Decoded([], s)
  }

  /** The frame of one payload: its length as four lowercase hexadecimal digits, then the payload. */
  function Frame(p: string): (f: string)
    requires |p| < 0x1_0000
    ensures |f| == 4 + |p| && f[4..] == p && AllLowerHex(f[..4])
  {
    Hex4(|p|) + p
  }

  /** A frame at the front is decoded, and decoding goes on after it. */
  lemma FrameHead(p: string, t: string)
    requires |p| < 0x1_0000
    ensures Frames(Frame(p) + t) == Decoded([p] + Frames(t).payloads, Frames(t).rest)
  {
    var s := Frame(p) + t;
    assert s[..4] == Hex4(|p|);
    Hex4RoundTrip(|p|);
    assert HasFrame(s) && FrameLength(s) == |p|;
    assert s[4..4 + |p|] == p && s[4 + |p|..] == t;
  }

  /** The frames of a run of payloads, one after the other. */
  function Encode(ps: seq<string>): (s: string)
    requires forall i :: 0 <= i < |ps| ==> |ps[i]| < 0x1_0000
  {
    if ps == [] then "" else Frame(ps[0]) + Encode(ps[1..])
  }

  /** Decoding gives back the encoded payloads, and leaves a trailing partial frame alone. */
  lemma {:induction false} EncodeRoundTrip(ps: seq<string>, rest: string)
    requires forall i :: 0 <= i < |ps| ==> |ps[i]| < 0x1_0000
    requires !HasFrame(rest)
    ensures Frames(Encode(ps) + rest) == Decoded(ps, rest)
  {
    if ps == [] {
      assert Encode(ps) + rest == rest;
    } else {
      assert Encode(ps) + rest == Frame(ps[0]) + (Encode(ps[1..]) + rest);
      EncodeRoundTrip(ps[1..], rest);
      FrameHead(ps[0], Encode(ps[1..]) + rest);
      assert [ps[0]] + ps[1..] == ps;
    }
  }

  /** A proper prefix of a frame is not decoded: it all stays in the buffer. */
  lemma PartialFrame(p: string, k: nat)
    requires |p| < 0x1_0000 && k < |Frame(p)|
    ensures Frames(Frame(p)[..k]) == Decoded([], Frame(p)[..k])
  {
    var s := Frame(p)[..k];
    if k >= 4 {
      assert s[..4] == Frame(p)[..4] == Hex4(|p|);
      Hex4RoundTrip(|p|);
      assert FrameLength(s) == |p|;
    }
  }

  /**
   * Decoding a stream in two pieces, the second after what the first left
   * over, decodes the same frames as decoding it whole.
   */
  lemma {:induction false} FramesAppend(s: string, t: string)
    ensures Frames(s + t)
         == Decoded(Frames(s).payloads + Frames(Frames(s).rest + t).payloads, Frames(Frames(s).rest + t).rest)
    decreases |s|
  {
    if HasFrame(s) {
      var n := FrameLength(s);
      var u := s + t;
      assert u[..4] == s[..4];
      assert HasFrame(u) && FrameLength(u) == n;
      assert u[4..4 + n] == s[4..4 + n];
      assert u[4 + n..] == s[4 + n..] + t;
      FramesAppend(s[4 + n..], t);
      assert [s[4..4 + n]] + Frames(s[4 + n..]).payloads + Frames(Frames(s[4 + n..]).rest + t).payloads
          == [s[4..4 + n]] + (Frames(s[4 + n..]).payloads + Frames(Frames(s[4 + n..]).rest + t).payloads);
    } else {
      assert Frames(s) == Decoded([], s);
    }
  }

  /** Feeding one more chunk to a decoder in state `d`. */
  function Feed(d: Decoded, chunk: string): (e: Decoded)
    ensures |e.payloads| >= |d.payloads| && e.payloads[..|d.payloads|] == d.payloads
    ensures !HasFrame(e.rest)
  {
    var f := Frames(d.rest + chunk);
    Decoded(d.payloads + f.payloads, f.rest)
  }

  /** Feeding a run of chunks to a fresh decoder. */
  function FeedAll(chunks: seq<string>): (d: Decoded)
    ensures !HasFrame(d.rest)
  {
    if chunks == [] then Decoded([], "") else Feed(FeedAll(chunks[..|chunks| - 1]), chunks[|chunks| - 1])
  }

  function Concat(chunks: seq<string>): string
  {
    if chunks == [] then "" else Concat(chunks[..|chunks| - 1]) + chunks[|chunks| - 1]
  }

  /** However the stream is cut into chunks, the decoder ends the same as on the whole stream. */
  lemma {:induction false} ChunkingInvariant(chunks: seq<string>)
    ensures FeedAll(chunks) == Frames(Concat(chunks))
  {
    if chunks != [] {
      var init := chunks[..|chunks| - 1];
      ChunkingInvariant(init);
      FramesAppend(Concat(init), chunks[|chunks| - 1]);
    } else {
      assert !HasFrame("");
    }
  }

  /** The stream cut into chunks of one character each. */
  function Singletons(s: string): (chunks: seq<string>)
    ensures |chunks| == |s| && forall i :: 0 <= i < |s| ==> chunks[i] == [s[i]]
  {
    seq(|s|, i requires 0 <= i < |s| => [s[i]])
  }

  lemma {:induction false} ConcatSingletons(s: string)
    ensures Concat(Singletons(s)) == s
  {
    if s != "" {
      var init := s[..|s| - 1];
      ConcatSingletons(init);
      assert Singletons(s)[..|s| - 1] == Singletons(init);
      assert init + [s[|s| - 1]] == s;
    }
  }

  /** Feeding the stream one character at a time decodes what feeding it at once does. */
  lemma OneAtATime(s: string)
    ensures FeedAll(Singletons(s)) == Frames(s)
  {
    ChunkingInvariant(Singletons(s));
    ConcatSingletons(s);
  }

  /** The text appended for a run of payloads, each rendered on its own. */
  function RenderAll(render: string -> string, ps: seq<string>): (out: string)
    ensures ps == [] ==> out == ""
  {
    if ps == [] then "" else render(ps[0]) + RenderAll(render, ps[1..])
  }

  lemma {:induction false} RenderAllAppend(render: string -> string, ps: seq<string>, qs: seq<string>)
    ensures RenderAll(render, ps + qs) == RenderAll(render, ps) + RenderAll(render, qs)
  {
    if ps != [] {
      assert (ps + qs)[0] == ps[0] && (ps + qs)[1..] == ps[1..] + qs;
      RenderAllAppend(render, ps[1..], qs);
    } else {
      assert ps + qs == qs;
    }
  }

  /** Two frames in one chunk give two renderings, in order. */
  lemma TwoFrames(render: string -> string, p: string, q: string)
    requires |p| < 0x1_0000 && |q| < 0x1_0000
    ensures Frames(Frame(p) + Frame(q)) == Decoded([p, q], "")
    ensures RenderAll(render, [p, q]) == render(p) + render(q)
  {
    assert Encode([p, q]) + "" == Frame(p) + Frame(q) by {
      assert [p, q][1..] == [q];
      assert Encode([q]) == Frame(q) + Encode([]);
    }
    EncodeRoundTrip([p, q], "");
  }

  /**
   * One frame and a half: the first is rendered and the half waits; the
   * remaining half then renders the second frame alone.
   */
  lemma OneAndAHalf(p: string, q: string, k: nat)
    requires |p| < 0x1_0000 && |q| < 0x1_0000 && k < |Frame(q)|
    ensures Frames(Frame(p) + Frame(q)[..k]) == Decoded([p], Frame(q)[..k])
    ensures Feed(Decoded([p], Frame(q)[..k]), Frame(q)[k..]) == Decoded([p, q], "")
  {
    PartialFrame(q, k);
    FrameHead(p, Frame(q)[..k]);
    assert Frame(q)[..k] + Frame(q)[k..] == Frame(q) + "";
    FrameHead(q, "");
  }

  /**
   * `ProtoBinaryToText`: the converter keeps the bytes of an incomplete
   * frame in `buffer` and appends the rendering of every complete frame to
   * `out`. The protobuf parsing and text rendering are not modelled: each
   * payload is rendered by the function the converter is built with.
   */
  class ProtoBinaryToText {
    var buffer: string
    var out: string
    const render: string -> string

    /** Between calls the buffer never holds a whole frame. */
    predicate Valid()
      reads this
    {
      !HasFrame(buffer)
    }

    constructor(render: string -> string)
      ensures this.render == render && buffer == "" && out == "" && Valid()
    {
      this.render := render;
      buffer := "";
      out := "";
    }

    /** Append the data, then render and drop every complete frame at the front of the buffer. */
    method OnStdoutReceived(data: string)
      modifies this
      ensures buffer == Frames(old(buffer) + data).rest
      ensures out == old(out) + RenderAll(render, Frames(old(buffer) + data).payloads)
      ensures Valid()
    {
      buffer := buffer + data;
      ghost var start := buffer;
      ghost var before := out;
      while |buffer| >= 4
        invariant Frames(buffer).rest == Frames(start).rest
        invariant before + RenderAll(render, Frames(start).payloads) == out + RenderAll(render, Frames(buffer).payloads)
        decreases |buffer|
      {
        if !HexHeader(buffer) {
          break;
        }
        var size := HexValue(buffer[..4]);
        if |buffer| < size + 4 {
          break;
        }
        var payload := buffer[4..4 + size];
        var next := buffer[4 + size..];
        DecodeFront(buffer);
        RenderFront(render, payload, Frames(next).payloads, before + RenderAll(render, Frames(start).payloads), out);
        buffer := next;
        out := out + render(payload);
      }
      NoFrameLeft(buffer);
    }
  }

  /** A whole frame at the front: its payload, then the frames after it. */
  lemma DecodeFront(s: string)
    requires HasFrame(s)
    ensures Frames(s).payloads == [s[4..4 + FrameLength(s)]] + Frames(s[4 + FrameLength(s)..]).payloads
    ensures Frames(s).rest == Frames(s[4 + FrameLength(s)..]).rest
  {
  }

  lemma RenderFront(render: string -> string, p: string, ps: seq<string>, total: string, out: string)
    requires total == out + RenderAll(render, [p] + ps)
    ensures total == (out + render(p)) + RenderAll(render, ps)
  {
    assert ([p] + ps)[0] == p && ([p] + ps)[1..] == ps;
  }

  /** What holds no whole frame decodes to nothing and stays as it is. */
  lemma NoFrameLeft(s: string)
    requires !HasFrame(s)
    ensures Frames(s) == Decoded([], s)
  {
  }
}
