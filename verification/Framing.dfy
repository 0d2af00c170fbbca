/**
 The telemetry stream (app/analytics.py): length-prefixed frames cut out of a buffer
 that grows by whatever chunks the socket delivers.
 */
module Framing {
  import opened Positional

  const MAX_FRAME_BYTES := 1024 * 1024

  // ----- the sender -----

  type Frame = f: seq<Byte> | 0 < |f| < 0x1_0000 witness [0]

  function Encode(f: Frame): seq<Byte> { [|f| / 256, |f| % 256] + f }

  function EncodeAll(fs: seq<Frame>): seq<Byte> {
    if fs == [] then [] else Encode(fs[0]) + EncodeAll(fs[1..])
  }

  function Concat(chunks: seq<seq<Byte>>): seq<Byte> {
    if chunks == [] then [] else chunks[0] + Concat(chunks[1..])
  }

  // ----- the receiver, as a function of its buffer -----

  function Short(b: seq<Byte>): int
    requires |b| >= 2
  {
    var hi: int, lo: int := b[0], b[1];
    hi * 256 + lo
  }

  function Long(b: seq<Byte>): int
    requires |b| >= 4
  {
    Short(b) * 0x1_0000 + Short(b[2..])
  }

  /** (header, length): a zero two-byte length is read again over four bytes once they are there. */
  function Header(b: seq<Byte>): (r: (int, int))
    requires |b| >= 2
    ensures r.0 == 2 || (r.0 == 4 && |b| >= 4)
  {
    if Short(b) == 0 && |b| >= 4 then (4, Long(b)) else (2, Short(b))
  }

  /** The frames one call returns and the buffer it leaves. */
  function Drain(b: seq<Byte>): (seq<seq<Byte>>, seq<Byte>)
    decreases |b|
  {
    if |b| < 2 then ([], b) else
    var (header, length) := Header(b);
    if length <= 0 || length > MAX_FRAME_BYTES then Drain(b[1..])
    else if |b| < header + length then ([], b)
    else
      var (frames, rest) := Drain(b[header + length..]);
      ([b[header..header + length]] + frames, rest)
  }

  /** The frames returned over successive chunks, starting from a buffer. */
  function Receive(buffer: seq<Byte>, chunks: seq<seq<Byte>>): (seq<seq<Byte>>, seq<Byte>)
    decreases |chunks|
  {
    if chunks == [] then ([], buffer) else
    var (frames, rest) := Drain(buffer + chunks[0]);
    var (more, last) := Receive(rest, chunks[1..]);
    (frames + more, last)
  }

  // ----- reassembly -----

  /** An unfinished frame: nothing, or a proper prefix of some frame's encoding. */
  predicate Unfinished(tail: seq<Byte>) {
    |tail| < 2 || (Short(tail) > 0 && |tail| < 2 + Short(tail))
  }

  lemma {:induction false} DrainFrame(f: Frame, rest: seq<Byte>)
    ensures Drain(Encode(f) + rest) == ([f] + Drain(rest).0, Drain(rest).1)
  {
    var b := Encode(f) + rest;
    assert Short(b) == |f|;
    assert b[2..2 + |f|] == f && b[2 + |f|..] == rest;
  }

  /** A zero length followed by a two-byte one frames the same bytes, once all of its header is there. */
  lemma DrainLongHeader(f: Frame, rest: seq<Byte>)
    ensures Drain([0, 0, |f| / 256, |f| % 256] + f + rest) == ([f] + Drain(rest).0, Drain(rest).1)
  {
    var b := [0, 0, |f| / 256, |f| % 256] + f + rest;
    assert Short(b) == 0 && Short(b[2..]) == |f|;
    assert b[4..4 + |f|] == f && b[4 + |f|..] == rest;
  }

  /** A length of zero over four bytes, or over fewer when no more are there, frames nothing: one byte is skipped. */
  lemma DrainZeroLength(b: seq<Byte>)
    requires |b| >= 2 && b[0] == 0 && b[1] == 0 && (|b| >= 4 ==> b[2] == 0 && b[3] == 0)
    ensures Drain(b) == Drain(b[1..])
  {
  }

  /** No header announces more than 65535 bytes, so the limit on the length is never what skips a byte. */
  lemma LimitNeverReached(b: seq<Byte>)
    requires |b| >= 2
    ensures Header(b).1 <= 65535 < MAX_FRAME_BYTES
  {
    if Short(b) == 0 && |b| >= 4 { assert b[0] == 0 && b[1] == 0; }
  }

  lemma {:induction false} DrainStream(fs: seq<Frame>, tail: seq<Byte>)
    requires Unfinished(tail)
    ensures Drain(EncodeAll(fs) + tail) == (fs, tail)
  {
    if fs == [] {
      assert EncodeAll(fs) + tail == tail;
    } else {
      assert EncodeAll(fs) + tail == Encode(fs[0]) + (EncodeAll(fs[1..]) + tail);
      DrainFrame(fs[0], EncodeAll(fs[1..]) + tail);
      DrainStream(fs[1..], tail);
      assert fs == [fs[0]] + fs[1..];
    }
  }

  lemma EncodeAllCons(f: Frame, fs: seq<Frame>)
    ensures EncodeAll([f] + fs) == Encode(f) + EncodeAll(fs)
  {
    assert ([f] + fs)[0] == f && ([f] + fs)[1..] == fs;
  }

  /** The first k bytes are `before` and `cut`; `cut` and the others are `after`. */
  predicate CutAt(s: seq<Byte>, k: nat, before: seq<Byte>, cut: seq<Byte>, after: seq<Byte>) {
    k <= |s| && s[..k] == before + cut && cut + s[k..] == after
  }

  lemma CutAfter(e: seq<Byte>, s: seq<Byte>, k: nat, before: seq<Byte>, cut: seq<Byte>, after: seq<Byte>)
    requires CutAt(s, k, before, cut, after)
    ensures CutAt(e + s, |e| + k, e + before, cut, after)
  {
    assert (e + s)[..|e| + k] == e + s[..k];
    assert (e + s)[|e| + k..] == s[k..];
  }

  lemma PlusTail(e: seq<Byte>, s: seq<Byte>, tail: seq<Byte>)
    ensures (e + s) + tail == e + (s + tail)
  {
  }

  lemma CutWithin(e: seq<Byte>, s: seq<Byte>, k: nat)
    requires k <= |e|
    ensures CutAt(e + s, k, [], e[..k], e + s)
  {
    assert [] + e[..k] == (e + s)[..k];
  }

  /** A stream cut at k: n whole frames before the cut, the others and the unfinished part of one after it. */
  predicate SplitAt(fs: seq<Frame>, tail: seq<Byte>, k: nat, n: nat, cut: seq<Byte>) {
    n <= |fs| && CutAt(EncodeAll(fs) + tail, k, EncodeAll(fs[..n]), cut, EncodeAll(fs[n..]) + tail)
  }

  /** A cut inside the first frame. */
  lemma SplitInFirst(f: Frame, fs: seq<Frame>, tail: seq<Byte>, k: nat)
    requires k < |Encode(f)|
    ensures Unfinished(Encode(f)[..k]) && SplitAt([f] + fs, tail, k, 0, Encode(f)[..k])
  {
    if k >= 2 { assert Short(Encode(f)[..k]) == |f|; }
    EncodeAllCons(f, fs);
    PlusTail(Encode(f), EncodeAll(fs), tail);
    CutWithin(Encode(f), EncodeAll(fs) + tail, k);
    assert ([f] + fs)[..0] == [] && ([f] + fs)[0..] == [f] + fs;
  }

  /** One whole frame before a stream that is cut into n frames and an unfinished tail. */
  lemma SplitAfter(f: Frame, fs: seq<Frame>, tail: seq<Byte>, k: nat, n: nat, cut: seq<Byte>)
    requires SplitAt(fs, tail, k, n, cut)
    ensures SplitAt([f] + fs, tail, |Encode(f)| + k, n + 1, cut)
  {
    EncodeAllCons(f, fs);
    EncodeAllCons(f, fs[..n]);
    PlusTail(Encode(f), EncodeAll(fs), tail);
    assert ([f] + fs)[..n + 1] == [f] + fs[..n] && ([f] + fs)[n + 1..] == fs[n..];
    CutAfter(Encode(f), EncodeAll(fs) + tail, k, EncodeAll(fs[..n]), cut, EncodeAll(fs[n..]) + tail);
  }

  lemma SplitTail(tail: seq<Byte>, k: nat)
    requires Unfinished(tail) && k <= |tail|
    ensures Unfinished(tail[..k]) && SplitAt([], tail, k, 0, tail[..k])
  {
    CutWithin(tail, [], k);
    assert EncodeAll([]) + tail == tail + [] == tail;
  }

  /** Any prefix of a frame stream is some of its frames and an unfinished tail. */
  lemma {:induction false} SplitPrefix(fs: seq<Frame>, tail: seq<Byte>, k: nat) returns (n: nat, cut: seq<Byte>)
    requires Unfinished(tail) && k <= |EncodeAll(fs) + tail|
    ensures Unfinished(cut) && SplitAt(fs, tail, k, n, cut)
    decreases |fs|, 1
  {
    if fs == [] {
      assert EncodeAll(fs) + tail == tail;
      n, cut := 0, tail[..k];
      SplitTail(tail, k);
    } else {
      assert fs == [fs[0]] + fs[1..];
      n, cut := SplitFirst(fs[0], fs[1..], tail, k);
    }
  }

  lemma {:induction false} SplitFirst(f: Frame, fs: seq<Frame>, tail: seq<Byte>, k: nat)
    returns (n: nat, cut: seq<Byte>)
    requires Unfinished(tail) && k <= |EncodeAll([f] + fs) + tail|
    ensures Unfinished(cut) && SplitAt([f] + fs, tail, k, n, cut)
    decreases |fs|, 2
  {
    EncodeAllCons(f, fs);
    if k < |Encode(f)| {
      n, cut := 0, Encode(f)[..k];
      SplitInFirst(f, fs, tail, k);
    } else {
      n, cut := SplitPrefix(fs, tail, k - |Encode(f)|);
      SplitAfter(f, fs, tail, k - |Encode(f)|, n, cut);
      n := n + 1;
    }
  }

  /**
   Reassembly: however the stream is cut into chunks, the frames come out complete, in
   order, and the buffer ends as the unfinished tail. The buffer may start in mid-frame.
   */
  lemma {:induction false} Reassembly(fs: seq<Frame>, tail: seq<Byte>, buffer: seq<Byte>, chunks: seq<seq<Byte>>)
    requires Unfinished(tail) && Unfinished(buffer)
    requires buffer + Concat(chunks) == EncodeAll(fs) + tail
    ensures Receive(buffer, chunks) == (fs, tail)
    decreases |chunks|
  {
    if chunks == [] {
      assert buffer == EncodeAll(fs) + tail;
      DrainStream(fs, tail);
      DrainStream([], buffer);
      assert EncodeAll([]) + buffer == buffer;
    } else {
      var s := EncodeAll(fs) + tail;
      var k := |buffer + chunks[0]|;
      assert s == (buffer + chunks[0]) + Concat(chunks[1..]);
      assert s[..k] == buffer + chunks[0] && s[k..] == Concat(chunks[1..]);
      var n, cut := SplitPrefix(fs, tail, k);
      DrainStream(fs[..n], cut);
      Reassembly(fs[n..], tail, cut, chunks[1..]);
      assert fs == fs[..n] + fs[n..];
    }
  }

  // ----- the collector, which clears its buffer when a frame does not decode -----

  /** Whether decode_dnsdist_message accepts a frame. */
  type Decoder = seq<Byte> -> bool

  /** How many frames are handled before the first one that does not decode. */
  function GoodPrefix(frames: seq<seq<Byte>>, decodes: Decoder): (n: nat)
    ensures n <= |frames| && (n < |frames| ==> !decodes(frames[n]))
    ensures forall j :: 0 <= j < n ==> decodes(frames[j])
  {
    if frames == [] || !decodes(frames[0]) then 0 else 1 + GoodPrefix(frames[1..], decodes)
  }

  /** What the collector has handled, what its buffer holds, and how often it dropped. */
  datatype Handled = Handled(frames: seq<seq<Byte>>, buffer: seq<Byte>, dropped: nat)

  /** One chunk: the frames are handled up to one that does not decode, which clears the buffer. */
  function HandleChunk(h: Handled, chunk: seq<Byte>, decodes: Decoder): Handled {
    var (frames, rest) := Drain(h.buffer + chunk);
    var n := GoodPrefix(frames, decodes);
    if n == |frames| then Handled(h.frames + frames, rest, h.dropped)
    else Handled(h.frames + frames[..n], [], h.dropped + 1)
  }

  function HandleAll(h: Handled, chunks: seq<seq<Byte>>, decodes: Decoder): Handled
    decreases |chunks|
  {
    if chunks == [] then h else HandleAll(HandleChunk(h, chunks[0], decodes), chunks[1..], decodes)
  }

  predicate AllDecode(frames: seq<seq<Byte>>, decodes: Decoder) {
    forall j :: 0 <= j < |frames| ==> decodes(frames[j])
  }

  /** Only frames that decode are ever handled. */
  lemma {:induction false} HandledDecode(h: Handled, chunks: seq<seq<Byte>>, decodes: Decoder)
    requires AllDecode(h.frames, decodes)
    ensures AllDecode(HandleAll(h, chunks, decodes).frames, decodes)
    decreases |chunks|
  {
    if chunks != [] { HandledDecode(HandleChunk(h, chunks[0], decodes), chunks[1..], decodes); }
  }

  lemma Appended(a: seq<seq<Byte>>, b: seq<seq<Byte>>, c: seq<seq<Byte>>)
    ensures (a + b) + c == a + (b + c)
  {
  }

  /** While every frame decodes, all that is received is handled. */
  lemma {:induction false} HandledReceived(h: Handled, chunks: seq<seq<Byte>>, decodes: Decoder)
    requires AllDecode(Receive(h.buffer, chunks).0, decodes)
    ensures var (frames, rest) := Receive(h.buffer, chunks);
            HandleAll(h, chunks, decodes) == Handled(h.frames + frames, rest, h.dropped)
    decreases |chunks|
  {
    if chunks == [] {
      assert h.frames + [] == h.frames;
    } else {
      var (frames, rest) := Drain(h.buffer + chunks[0]);
      var more := Receive(rest, chunks[1..]).0;
      var all := Receive(h.buffer, chunks).0;
      assert all == frames + more;
      AllDecodeParts(frames, more, decodes);
      HandledReceived(Handled(h.frames + frames, rest, h.dropped), chunks[1..], decodes);
      Appended(h.frames, frames, more);
    }
  }

  lemma AllDecodeParts(a: seq<seq<Byte>>, b: seq<seq<Byte>>, decodes: Decoder)
    requires AllDecode(a + b, decodes)
    ensures AllDecode(a, decodes) && AllDecode(b, decodes) && GoodPrefix(a, decodes) == |a|
  {
    forall j | 0 <= j < |b|
      ensures decodes(b[j])
    {
      assert (a + b)[|a| + j] == b[j];
    }
    forall j | 0 <= j < |a|
      ensures decodes(a[j])
    {
      assert (a + b)[j] == a[j];
    }
  }

  /** However the stream is cut, the frames handled are exactly those sent if and only if all of them decode. */
  lemma AllHandledIff(fs: seq<Frame>, tail: seq<Byte>, buffer: seq<Byte>, chunks: seq<seq<Byte>>, decodes: Decoder)
    requires Unfinished(tail) && Unfinished(buffer)
    requires buffer + Concat(chunks) == EncodeAll(fs) + tail
    ensures var h := HandleAll(Handled([], buffer, 0), chunks, decodes);
            && (h.frames == fs <==> AllDecode(fs, decodes))
            && (AllDecode(fs, decodes) ==> h.buffer == tail && h.dropped == 0)
  {
    var start := Handled([], buffer, 0);
    Reassembly(fs, tail, buffer, chunks);
    HandledDecode(start, chunks, decodes);
    if AllDecode(fs, decodes) {
      HandledReceived(start, chunks, decodes);
      assert [] + Receive(buffer, chunks).0 == fs;
    }
  }

  function ChunksOf(gs: seq<seq<Frame>>): seq<seq<Byte>>
    decreases |gs|
  {
    if gs == [] then [] else [EncodeAll(gs[0])] + ChunksOf(gs[1..])
  }

  /** Of each group, the frames before the first one that does not decode. */
  function GoodOf(gs: seq<seq<Frame>>, decodes: Decoder): seq<seq<Byte>>
    decreases |gs|
  {
    if gs == [] then [] else gs[0][..GoodPrefix(gs[0], decodes)] + GoodOf(gs[1..], decodes)
  }

  lemma FirstChunk(h: Handled, chunk: seq<Byte>, more: seq<seq<Byte>>, decodes: Decoder)
    ensures HandleAll(h, [chunk] + more, decodes) == HandleAll(HandleChunk(h, chunk, decodes), more, decodes)
  {
    assert ([chunk] + more)[1..] == more;
  }

  lemma WholeChunk(h: Handled, g: seq<Frame>, decodes: Decoder)
    requires h.buffer == []
    ensures var h' := HandleChunk(h, EncodeAll(g), decodes);
            h'.frames == h.frames + g[..GoodPrefix(g, decodes)] && h'.buffer == []
  {
    DrainStream(g, []);
    assert h.buffer + EncodeAll(g) == EncodeAll(g) + [];
    assert g[..|g|] == g;
  }

  /** When every chunk is a whole number of frames, a frame that does not decode costs the rest of its chunk alone. */
  lemma {:induction false} WholeChunksRecover(h: Handled, gs: seq<seq<Frame>>, decodes: Decoder)
    requires h.buffer == []
    ensures HandleAll(h, ChunksOf(gs), decodes).frames == h.frames + GoodOf(gs, decodes)
    ensures HandleAll(h, ChunksOf(gs), decodes).buffer == []
    decreases |gs|
  {
    if gs == [] {
      assert h.frames + [] == h.frames;
    } else {
      var good := gs[0][..GoodPrefix(gs[0], decodes)];
      var h1 := HandleChunk(h, EncodeAll(gs[0]), decodes);
      WholeChunk(h, gs[0], decodes);
      FirstChunk(h, EncodeAll(gs[0]), ChunksOf(gs[1..]), decodes);
      WholeChunksRecover(h1, gs[1..], decodes);
      Appended(h.frames, good, GoodOf(gs[1..], decodes));
    }
  }

  /**
   Otherwise a frame that decodes can be lost too: cleared in the middle of a frame, the collector
   takes the rest of it for the start of another.
   */
  lemma GoodFrameLost(bad: Frame, x: Byte, decodes: Decoder)
    requires !decodes(bad)
    ensures var chunks := [Encode(bad) + [0], [1, x]];
            && Concat(chunks) == EncodeAll([bad, [x]])
            && HandleAll(Handled([], [], 0), chunks, decodes) == Handled([], [1, x], 1)
  {
    var first, second: seq<Byte> := Encode(bad) + [0], [1, x];
    var chunks := [first, second];
    assert [first] + [second] == chunks && [second] + [] == [second] && [second][1..] == [];
    assert Encode([x]) == [0] + second;
    EncodeAllCons(bad, [[x]]);
    EncodeAllCons([x], []);
    assert [bad] + [[x]] == [bad, [x]] && [[x]] + [] == [[x]];
    assert Concat([second]) == second + [] == second;
    assert EncodeAll([[x]]) == Encode([x]) + [] == Encode([x]);
    PlusTail(Encode(bad), [0], second);
    DrainFrame(bad, [0]);
    assert [] + first == first && [] + second == second;
    assert Drain(first).0 == [bad];
    assert Drain(second) == ([], second);
    var h := Handled([], [], 0);
    var h1 := HandleChunk(h, first, decodes);
    assert h1 == Handled([], [], 1);
    assert HandleChunk(h1, second, decodes) == Handled([], second, 1);
    FirstChunk(h, first, [second], decodes);
    FirstChunk(h1, second, [], decodes);
  }

  // ----- the receiver as the collector runs it -----

  /** Having cut `frames` off `start`, what is left is b. */
  predicate Cutting(start: seq<Byte>, frames: seq<seq<Byte>>, b: seq<Byte>) {
    Drain(start) == (frames + Drain(b).0, Drain(b).1)
  }

  lemma NothingCut(start: seq<Byte>)
    ensures Cutting(start, [], start)
  {
    assert [] + Drain(start).0 == Drain(start).0;
  }

  lemma ReadWhole(x: Byte, decodes: Decoder)
    requires decodes([x])
    ensures HandleAll(Handled([], [], 0), [[0, 0, 0, 1, x]], decodes) == Handled([[x]], [], 0)
  {
    var h, whole: seq<Byte> := Handled([], [], 0), [0, 0, 0, 1, x];
    var body: seq<Byte> := [x];
    assert whole == [0, 0, |body| / 256, |body| % 256] + body + [];
    DrainLongHeader(body, []);
    assert h.buffer + whole == whole && [whole] + [] == [whole];
    assert Drain([]) == ([], []) && [body] + [] == [body];
    assert Drain(whole) == ([body], []);
    FirstChunk(h, whole, [], decodes);
    assert [] + [[x]] == [[x]];
  }

  lemma ReadCut(x: Byte, decodes: Decoder)
    ensures HandleChunk(Handled([], [], 0), [0, 0], decodes) == Handled([], [0], 0)
    ensures HandleChunk(Handled([], [0], 0), [0, 1, x], decodes) == Handled([], [0, 0, 1, x], 0)
  {
    var first, b: seq<Byte> := [0, 0], [0, 0, 1, x];
    assert [] + first == first && first[1..] == [0];
    DrainZeroLength(first);
    assert Drain([0]) == ([], [0]);
    assert [0] + [0, 1, x] == b && b[2..] == [1, x];
    assert Long(b) == 256 + x && Drain(b) == ([], b);
  }

  /**
   The four-byte header must arrive whole: cut after its two zeros, the first of them is skipped, and
   the collector waits for a frame of 256 bytes and more instead of reading the one byte that came.
   */
  lemma LongHeaderCut(x: Byte, decodes: Decoder)
    requires decodes([x])
    ensures Concat([[0, 0], [0, 1, x]]) == [0, 0, 0, 1, x]
    ensures HandleAll(Handled([], [], 0), [[0, 0, 0, 1, x]], decodes) == Handled([[x]], [], 0)
    ensures HandleAll(Handled([], [], 0), [[0, 0], [0, 1, x]], decodes) == Handled([], [0, 0, 1, x], 0)
  {
    var first, second: seq<Byte> := [0, 0], [0, 1, x];
    ReadWhole(x, decodes);
    ReadCut(x, decodes);
    assert [first] + [second] == [first, second] && [second] + [] == [second] && [first, second][1..] == [second];
    assert Concat([second]) == second + [] == second;
    FirstChunk(Handled([], [], 0), first, [second], decodes);
    FirstChunk(Handled([], [0], 0), second, [], decodes);
  }

  /** One turn that skips a byte. */
  lemma SkipTurn(start: seq<Byte>, frames: seq<seq<Byte>>, b: seq<Byte>)
    requires Cutting(start, frames, b) && |b| >= 2 && !(0 < Header(b).1 <= MAX_FRAME_BYTES)
    ensures Cutting(start, frames, b[1..])
  {
  }

  /** One turn that cuts a frame. */
  lemma FrameTurn(start: seq<Byte>, frames: seq<seq<Byte>>, b: seq<Byte>)
    requires Cutting(start, frames, b)
    requires |b| >= 2 && 0 < Header(b).1 <= MAX_FRAME_BYTES && Header(b).0 + Header(b).1 <= |b|
    ensures var (header, length) := Header(b);
            Cutting(start, frames + [b[header..header + length]], b[header + length..])
  {
    var (header, length) := Header(b);
    var frame, more := b[header..header + length], Drain(b[header + length..]).0;
    assert Drain(b).0 == [frame] + more;
    Appended(frames, [frame], more);
  }

  /** The turn that waits for more bytes. */
  lemma LastTurn(start: seq<Byte>, frames: seq<seq<Byte>>, b: seq<Byte>)
    requires Cutting(start, frames, b)
    requires |b| < 2 || (0 < Header(b).1 <= MAX_FRAME_BYTES && |b| < Header(b).0 + Header(b).1)
    ensures Drain(start) == (frames, b)
  {
    assert frames + [] == frames;
  }

  /** Decodes the frames of one chunk in order; stops at the first that raises. */
  method HandleFrames(frames: seq<seq<Byte>>, decodes: Decoder) returns (n: nat)
    ensures n == GoodPrefix(frames, decodes)
  {
    n := 0;
    while n < |frames| && decodes(frames[n])
      invariant n <= |frames| && GoodPrefix(frames, decodes) == n + GoodPrefix(frames[n..], decodes)
    {
      assert frames[n..][1..] == frames[n + 1..];
      n := n + 1;
    }
  }

  class FrameBuffer {
    var buffer: seq<Byte>

    constructor ()
      ensures buffer == []
    {
      buffer := [];
    }

    /** Cuts every complete frame off the front; a byte that starts no acceptable length is skipped. */
    method IterFrames() returns (frames: seq<seq<Byte>>)
      modifies this
      ensures (frames, buffer) == Drain(old(buffer))
    {
      frames := [];
      NothingCut(buffer);
      while true
        invariant Cutting(old(buffer), frames, buffer)
        decreases |buffer|
      {
        if |buffer| < 2 { LastTurn(old(buffer), frames, buffer); return; }
        var length, header := Short(buffer), 2;
        if length == 0 && |buffer| >= 4 {
          length, header := Long(buffer), 4;
        }
        if length <= 0 || length > MAX_FRAME_BYTES {
          SkipTurn(old(buffer), frames, buffer);
          buffer := buffer[1..];
          continue;
        }
        if |buffer| < header + length { LastTurn(old(buffer), frames, buffer); return; }
        FrameTurn(old(buffer), frames, buffer);
        frames := frames + [buffer[header..header + length]];
        buffer := buffer[header + length..];
      }
    }

    /** One turn of the collector's loop: take the frames out, handle them in order. */
    method Extend(chunk: seq<Byte>, handled: seq<seq<Byte>>, dropped: nat, decodes: Decoder)
      returns (handled': seq<seq<Byte>>, dropped': nat)
      modifies this
      ensures Handled(handled', buffer, dropped')
           == HandleChunk(Handled(handled, old(buffer), dropped), chunk, decodes)
    {
      buffer := buffer + chunk;
      var frames := IterFrames();
      var n := HandleFrames(frames, decodes);
      handled', dropped' := handled + frames[..n], dropped;
      if n < |frames| {
        dropped' := dropped + 1;
        buffer := [];
      } else {
        assert frames[..n] == frames;
      }
    }

    /** The collector's loop over the chunks the socket delivers. */
    method HandleClient(chunks: seq<seq<Byte>>, decodes: Decoder) returns (handled: seq<seq<Byte>>, dropped: nat)
      modifies this
      ensures Handled(handled, buffer, dropped) == HandleAll(Handled([], old(buffer), 0), chunks, decodes)
      ensures forall fs: seq<Frame>, tail |
                Unfinished(old(buffer)) && Unfinished(tail) && old(buffer) + Concat(chunks) == EncodeAll(fs) + tail ::
                (handled == fs <==> AllDecode(fs, decodes))
                && (AllDecode(fs, decodes) ==> buffer == tail && dropped == 0)
    {
      handled, dropped := [], 0;
      ghost var start := Handled([], buffer, 0);
      for i := 0 to |chunks|
        invariant HandleAll(start, chunks, decodes)
               == HandleAll(Handled(handled, buffer, dropped), chunks[i..], decodes)
      {
        assert chunks[i..][0] == chunks[i] && chunks[i..][1..] == chunks[i + 1..];
        handled, dropped := Extend(chunks[i], handled, dropped, decodes);
      }
      forall fs: seq<Frame>, tail | Unfinished(old(buffer)) && Unfinished(tail)
          && old(buffer) + Concat(chunks) == EncodeAll(fs) + tail
        ensures handled == fs <==> AllDecode(fs, decodes)
        ensures AllDecode(fs, decodes) ==> buffer == tail && dropped == 0
      {
        AllHandledIff(fs, tail, old(buffer), chunks, decodes);
      }
    }
  }
}
