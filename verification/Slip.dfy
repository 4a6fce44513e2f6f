/** SLIP framing (RFC 1055): the packet writer and the incremental reader are inverse. */
module Slip {
  import opened Common

  const END: byte := 0xC0
  const ESC: byte := 0xDB
  const ESC_END: byte := 0xDC
  const ESC_ESC: byte := 0xDD

  // ---- writer ---------------------------------------------------------------

  /** `s.replace(b, r)` for a single byte `b`. */
  function Replace(s: Bytes, b: byte, r: Bytes): Bytes {
    if s == [] then [] else Replace(s[..|s| - 1], b, r) + (if s[|s| - 1] == b then r else [s[|s| - 1]])
  }

  function Escape(p: Bytes): Bytes {
    Replace(Replace(p, ESC, [ESC, ESC_ESC]), END, [ESC, ESC_END])
  }

  /** What `write` sends for one packet. */
  function Frame(p: Bytes): Bytes {
    [END] + Escape(p) + [END]
  }

  function Frames(ps: seq<Bytes>): Bytes {
    if ps == [] then [] else Frames(ps[..|ps| - 1]) + Frame(ps[|ps| - 1])
  }

  // ---- reader ---------------------------------------------------------------

  /** `partial` is `None` between packets. */
  datatype Reader = Ready(partial: Option<Bytes>, inEscape: bool) | Failed(error: string)

  const IDLE: Reader := Ready(None, false)

  /** One byte: the new state and the packet completed, if any. */
  function Feed(r: Reader, b: byte): (Reader, seq<Bytes>) {
    if r.Failed? then (r, [])
    else if r.partial.None? then
      if b == END then (Ready(Some([]), r.inEscape), []) else (Failed("Invalid head of packet"), [])
    else
      var p := r.partial.value;
      if r.inEscape then
        if b == ESC_END then (Ready(Some(p + [END]), false), [])
        else if b == ESC_ESC then (Ready(Some(p + [ESC]), false), [])
        else (Failed("Invalid SLIP escape"), [])
      else if b == ESC then (Ready(Some(p), true), [])
      else if b == END then (Ready(None, false), [p])
      else (Ready(Some(p + [b]), false), [])
  }

  function FeedAll(r: Reader, bs: Bytes): (Reader, seq<Bytes>) {
    if bs == [] then (r, [])
    else
      var (r', ps) := FeedAll(r, bs[..|bs| - 1]);
      var (r'', more) := Feed(r', bs[|bs| - 1]);
      (r'', ps + more)
  }

  class SlipReader {
    var state: Reader

    constructor ()
      ensures state == IDLE
    {
      state := IDLE;
    }

    /** Consume what one `port.read` returned; an empty read is a timeout. */
    method Consume(chunk: Bytes) returns (packets: seq<Bytes>)
      modifies this
      ensures chunk != [] ==> (state, packets) == FeedAll(old(state), chunk)
      ensures chunk == [] ==> packets == [] && (old(state).Ready? ==> state.Failed?)
    {
      packets := [];
      if chunk == [] {
        if state.Ready? {
          state := Failed(if state.partial.None? then "Timed out waiting for packet header"
                          else "Timed out waiting for packet content");
        }
        return;
      }
      for i := 0 to |chunk|
        invariant (state, packets) == FeedAll(old(state), chunk[..i])
      {
        assert chunk[..i + 1][..i] == chunk[..i];
        var (next, done) := Feed(state, chunk[i]);
        state, packets := next, packets + done;
      }
      assert chunk[..|chunk|] == chunk;
    }
  }

  // ---- chunking does not matter ---------------------------------------------

  function Concat(chunks: seq<Bytes>): Bytes {
    if chunks == [] then [] else Concat(chunks[..|chunks| - 1]) + chunks[|chunks| - 1]
  }

  function FeedChunks(r: Reader, chunks: seq<Bytes>): (Reader, seq<Bytes>) {
    if chunks == [] then (r, [])
    else
      var (r', ps) := FeedChunks(r, chunks[..|chunks| - 1]);
      var (r'', more) := FeedAll(r', chunks[|chunks| - 1]);
      (r'', ps + more)
  }

  lemma {:induction false} FeedConcat(r: Reader, a: Bytes, b: Bytes)
    ensures var (r', ps) := FeedAll(r, a);
            var (r'', more) := FeedAll(r', b);
            FeedAll(r, a + b) == (r'', ps + more)
    decreases |b|
  {
    if b == [] {
      assert a + b == a;
      assert FeedAll(r, a).1 + [] == FeedAll(r, a).1;
    } else {
      var n := |b| - 1;
      FeedConcat(r, a, b[..n]);
      assert (a + b)[..|a + b| - 1] == a + b[..n];
      var (r', ps) := FeedAll(r, a);
      var (m, mid) := FeedAll(r', b[..n]);
      assert ps + mid + Feed(m, b[n]).1 == ps + (mid + Feed(m, b[n]).1);
    }
  }

  lemma {:induction false} ChunksAreConcat(r: Reader, chunks: seq<Bytes>)
    ensures FeedChunks(r, chunks) == FeedAll(r, Concat(chunks))
  {
    if chunks != [] {
      ChunksAreConcat(r, chunks[..|chunks| - 1]);
      FeedConcat(r, Concat(chunks[..|chunks| - 1]), chunks[|chunks| - 1]);
    }
  }

  /** A whole reception: every read returned something. */
  method Receive(reader: SlipReader, chunks: seq<Bytes>) returns (packets: seq<Bytes>)
    requires forall c :: c in chunks ==> c != []
    modifies reader
    ensures (reader.state, packets) == FeedChunks(old(reader.state), chunks)
  {
    packets := [];
    for i := 0 to |chunks|
      invariant (reader.state, packets) == FeedChunks(old(reader.state), chunks[..i])
    {
      assert chunks[..i + 1][..i] == chunks[..i];
      assert chunks[i] in chunks;
      var more := reader.Consume(chunks[i]);
      packets := packets + more;
    }
    assert chunks[..|chunks|] == chunks;
  }

  // ---- writing then reading -------------------------------------------------

  function EscapeByte(b: byte): Bytes {
    if b == END then [ESC, ESC_END] else if b == ESC then [ESC, ESC_ESC] else [b]
  }

  lemma {:induction false} ReplaceConcat(s: Bytes, t: Bytes, b: byte, r: Bytes)
    ensures Replace(s + t, b, r) == Replace(s, b, r) + Replace(t, b, r)
    decreases |t|
  {
    if t == [] {
      assert s + t == s;
    } else {
      ReplaceConcat(s, t[..|t| - 1], b, r);
      assert (s + t)[..|s + t| - 1] == s + t[..|t| - 1];
    }
  }

  lemma ReplaceOne(x: byte, b: byte, r: Bytes)
    ensures Replace([x], b, r) == if x == b then r else [x]
  {
    assert [x][..0] == [];
  }

  /** The two replacements, in that order, escape byte by byte. */
  lemma EscapeSnoc(p: Bytes, b: byte)
    ensures Escape(p + [b]) == Escape(p) + EscapeByte(b)
  {
    ReplaceConcat(p, [b], ESC, [ESC, ESC_ESC]);
    ReplaceOne(b, ESC, [ESC, ESC_ESC]);
    var once := if b == ESC then [ESC, ESC_ESC] else [b];
    ReplaceConcat(Replace(p, ESC, [ESC, ESC_ESC]), once, END, [ESC, ESC_END]);
    if b == ESC {
      ReplaceConcat([ESC], [ESC_ESC], END, [ESC, ESC_END]);
      assert once == [ESC] + [ESC_ESC];
      ReplaceOne(ESC, END, [ESC, ESC_END]);
      ReplaceOne(ESC_ESC, END, [ESC, ESC_END]);
    } else {
      ReplaceOne(b, END, [ESC, ESC_END]);
    }
  }

  lemma FeedOne(r: Reader, b: byte)
    ensures FeedAll(r, [b]) == Feed(r, b)
  {
    assert [b][..0] == [];
    assert [] + Feed(r, b).1 == Feed(r, b).1;
  }

  lemma FeedTwo(r: Reader, a: byte, b: byte)
    ensures var (r', ps) := Feed(r, a);
            FeedAll(r, [a, b]) == (Feed(r', b).0, ps + Feed(r', b).1)
  {
    assert [a, b][..1] == [a];
    FeedOne(r, a);
  }

  /** The escaped bytes of `p`, fed inside a packet, append `p`. */
  lemma {:induction false} FeedEscaped(p: Bytes)
    ensures FeedAll(Ready(Some([]), false), Escape(p)) == (Ready(Some(p), false), [])
  {
    var open := Ready(Some([]), false);
    if p != [] {
      var q, b := p[..|p| - 1], p[|p| - 1];
      assert p == q + [b];
      FeedEscaped(q);
      EscapeSnoc(q, b);
      FeedConcat(open, Escape(q), EscapeByte(b));
      var mid := Ready(Some(q), false);
      if b == END {
        FeedTwo(mid, ESC, ESC_END);
      } else if b == ESC {
        FeedTwo(mid, ESC, ESC_ESC);
      } else {
        FeedOne(mid, b);
      }
    }
  }

  lemma FeedFrame(p: Bytes)
    ensures FeedAll(IDLE, Frame(p)) == (IDLE, [p])
  {
    FeedOne(IDLE, END);
    FeedEscaped(p);
    FeedConcat(IDLE, [END], Escape(p));
    FeedConcat(IDLE, [END] + Escape(p), [END]);
    FeedOne(Ready(Some(p), false), END);
  }

  lemma {:induction false} FeedFrames(ps: seq<Bytes>)
    ensures FeedAll(IDLE, Frames(ps)) == (IDLE, ps)
  {
    if ps != [] {
      FeedFrames(ps[..|ps| - 1]);
      FeedLast(ps[..|ps| - 1], ps[|ps| - 1]);
      assert ps[..|ps| - 1] + [ps[|ps| - 1]] == ps;
    }
  }

  lemma FeedLast(ps: seq<Bytes>, p: Bytes)
    requires FeedAll(IDLE, Frames(ps)) == (IDLE, ps)
    ensures FeedAll(IDLE, Frames(ps + [p])) == (IDLE, ps + [p])
  {
    FeedOneMore(Frames(ps), ps, p);
    FramesSnoc(ps, p);
  }

  lemma FramesSnoc(ps: seq<Bytes>, p: Bytes)
    ensures Frames(ps + [p]) == Frames(ps) + Frame(p)
  {
    assert (ps + [p])[..|ps|] == ps;
  }

  lemma FeedOneMore(bs: Bytes, ps: seq<Bytes>, p: Bytes)
    requires FeedAll(IDLE, bs) == (IDLE, ps)
    ensures FeedAll(IDLE, bs + Frame(p)) == (IDLE, ps + [p])
  {
    FeedFrame(p);
    FeedConcat(IDLE, bs, Frame(p));
  }

  // ---- reading back what was accepted ---------------------------------------

  /** The bytes of a packet in progress. */
  function Pending(r: Reader): Bytes {
    if r.Failed? || r.partial.None? then []
    else [END] + Escape(r.partial.value) + (if r.inEscape then [ESC] else [])
  }

  ghost predicate WellFormed(r: Reader) {
    r.Ready? && r.partial.None? ==> !r.inEscape
  }

  /** Whatever the reader accepted is the framing of what it returned, plus the packet in
      progress: there is one encoding of each packet. */
  lemma {:induction false} AcceptedIsFraming(bs: Bytes)
    requires FeedAll(IDLE, bs).0.Ready?
    ensures var (r, ps) := FeedAll(IDLE, bs);
            bs == Frames(ps) + Pending(r) && WellFormed(r)
  {
    if bs != [] {
      var n := |bs| - 1;
      var b := bs[n];
      var (r, ps) := FeedAll(IDLE, bs[..n]);
      AcceptedIsFraming(bs[..n]);
      assert bs == bs[..n] + [b];
      AcceptStep(r, ps, b);
    }
  }

  lemma AcceptStep(r: Reader, ps: seq<Bytes>, b: byte)
    requires r.Ready? && WellFormed(r) && Feed(r, b).0.Ready?
    ensures var (r', more) := Feed(r, b);
            Frames(ps) + Pending(r) + [b] == Frames(ps + more) + Pending(r') && WellFormed(r')
  {
    var (r', more) := Feed(r, b);
    if r.partial.None? {
      assert Escape([]) == [];
      assert Pending(r') == [END];
      assert ps + more == ps;
    } else if !r.inEscape && b == END {
      CompletePacket(ps, r.partial.value);
    } else {
      assert ps + more == ps;
      assert Pending(r) + [b] == Pending(r') by { PendingStep(r, b); }
      assert Frames(ps) + Pending(r) + [b] == Frames(ps) + (Pending(r) + [b]);
    }
  }

  lemma CompletePacket(ps: seq<Bytes>, p: Bytes)
    ensures Frames(ps + [p]) + [] == Frames(ps) + ([END] + Escape(p) + []) + [END]
  {
    assert (ps + [p])[..|ps|] == ps;
    assert [END] + Escape(p) + [] == [END] + Escape(p);
    assert Frames(ps) + Frame(p) == Frames(ps) + ([END] + Escape(p)) + [END];
  }

  /** A byte inside a packet extends the packet in progress. */
  lemma PendingStep(r: Reader, b: byte)
    requires r.Ready? && r.partial.Some? && Feed(r, b).0.Ready? && (r.inEscape || b != END)
    ensures Pending(Feed(r, b).0) == Pending(r) + [b]
  {
    var p := r.partial.value;
    if r.inEscape {
      var c := if b == ESC_END then END else ESC;
      EscapeSnoc(p, c);
      assert [END] + (Escape(p) + [ESC, b]) + [] == [END] + Escape(p) + [ESC] + [b];
    } else if b == ESC {
      assert [END] + Escape(p) + [] + [ESC] == [END] + Escape(p) + [ESC];
    } else {
      EscapeSnoc(p, b);
      assert [END] + (Escape(p) + [b]) + [] == [END] + Escape(p) + [] + [b];
    }
  }

  /** Round trip, for every packet sequence and every way the line splits it: the reader
      returns exactly the packets and is ready for the next. Conversely, a stream after
      which the reader is between packets is the framing of the packets it returned. */
  lemma RoundTrip(ps: seq<Bytes>, chunks: seq<Bytes>)
    requires forall c :: c in chunks ==> c != []
    ensures FeedChunks(IDLE, chunks) == (IDLE, ps) <==> Concat(chunks) == Frames(ps)
  {
    ChunksAreConcat(IDLE, chunks);
    FeedFrames(ps);
    if FeedChunks(IDLE, chunks) == (IDLE, ps) {
      AcceptedIsFraming(Concat(chunks));
      assert Frames(ps) + [] == Frames(ps);
    }
  }

  // ---- the bytes on the line ------------------------------------------------

  /** A frame is the packet between two bytes C0, with C0 written DB DC, DB written DB DD, and
      every other byte as it is. */
  lemma FrameBytes(p: Bytes, b: byte)
    ensures Frame([]) == [0xC0, 0xC0]
    ensures var f := Frame(p);
            && |f| >= 2 && f[0] == 0xC0 && f[|f| - 1] == 0xC0
            && Frame(p + [b]) == f[..|f| - 1]
               + (if b == 0xC0 then [0xDB, 0xDC] else if b == 0xDB then [0xDB, 0xDD] else [b]) + [0xC0]
  {
    EscapeSnoc(p, b);
    Between(Escape(p), EscapeByte(b));
  }

  lemma Between(e: Bytes, x: Bytes)
    ensures ([END] + e + [END])[..|e| + 1] == [END] + e
    ensures [END] + (e + x) + [END] == [END] + e + x + [END]
  {
  }

  /** When the next byte fails, and why: outside a packet anything but C0, inside an escape
      anything but DC and DD. */
  lemma FailsIff(bs: Bytes, b: byte)
    requires FeedAll(IDLE, bs).0.Ready?
    ensures var r := FeedAll(IDLE, bs).0;
            var r' := FeedAll(IDLE, bs + [b]).0;
            && (r' == Failed("Invalid head of packet") <==> r.partial.None? && b != 0xC0)
            && (r' == Failed("Invalid SLIP escape") <==> r.partial.Some? && r.inEscape && b != 0xDC && b != 0xDD)
            && (r'.Failed? ==> r' == Failed("Invalid head of packet") || r' == Failed("Invalid SLIP escape"))
  {
    assert (bs + [b])[..|bs|] == bs;
  }
}
