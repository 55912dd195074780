/** The header tracker against what a client that speaks HTTP/2 sends: the connection preface, then frames, each
    written out here from its fields (sections 3.4, 4.1, 6.2 and 6.10 of RFC 9113). */
module HeaderFrames {
  import opened Wrappers
  import opened HeaderTimeout
  import opened HeaderStream

  /** A frame with the four bytes of its stream's number. */
  datatype Frame = Frame(kind: byte, flags: byte, stream: seq<byte>, payload: seq<byte>)

  predicate Sendable(f: Frame) {
    |f.stream| == 4 && |f.payload| < 0x1000000
  }

  function Encoded(f: Frame): seq<byte>
    requires Sendable(f)
  {
    var n := |f.payload|;
    [(n / 0x10000) as byte, (n / 0x100 % 0x100) as byte, (n % 0x100) as byte, f.kind, f.flags] + f.stream + f.payload
  }

  ghost predicate AllSendable(frames: seq<Frame>) {
    forall i :: 0 <= i < |frames| ==> Sendable(frames[i])
  }

  function Wire(frames: seq<Frame>): seq<byte>
    requires AllSendable(frames)
  {
    if frames == [] then [] else Encoded(frames[0]) + Wire(frames[1..])
  }

  function Ascii(s: string): seq<byte> {
    seq(|s|, i requires 0 <= i < |s| => (s[i] as int % 0x100) as byte)
  }

  const GREETING := "PRI * HTTP/2.0\r\n\r\nSM\r\n\r\n"

  /** HEADERS or CONTINUATION, with END_HEADERS. */
  predicate EndsHeaders(f: Frame) {
    (f.kind == 1 || f.kind == 9) && f.flags % 8 >= 4
  }

  /** A header block has ended, and no HEADERS frame came after it. */
  ghost predicate Settled(frames: seq<Frame>) {
    exists j :: 0 <= j < |frames| && EndsHeaders(frames[j]) && forall i :: j < i < |frames| ==> frames[i].kind != 1
  }

  // ------------------------------------------------------------------ decoding

  function Header(f: Frame): seq<byte>
    requires Sendable(f)
  {
    Encoded(f)[..9]
  }

  lemma LengthIsRead(n: nat)
    requires n < 0x1000000
    ensures n / 0x10000 < 256 && n / 0x10000 * 0x10000 + n / 0x100 % 0x100 * 0x100 + n % 0x100 == n
  {
    assert n / 0x10000 == n / 0x100 / 0x100;
  }

  lemma HeaderIsRead(f: Frame)
    requires Sendable(f)
    ensures |Encoded(f)| == 9 + |f.payload| && |Header(f)| == 9
    ensures PayloadLen(Header(f)) == |f.payload|
    ensures StartsBlock(Header(f)) <==> f.kind == 1
    ensures EndsBlock(Header(f)) <==> EndsHeaders(f)
  {
    LengthIsRead(|f.payload|);
  }

  /** A whole frame in front is taken apart from the rest. */
  lemma FrameIsCut(f: Frame, more: seq<byte>)
    requires Sendable(f)
    ensures var (whole, rest) := HeaderStream.Frames(more);
            HeaderStream.Frames(Encoded(f) + more) == ([Header(f)] + whole, rest)
  {
    var s := Encoded(f) + more;
    HeaderIsRead(f);
    assert s[..9] == Header(f);
    assert s[9 + |f.payload|..] == more;
  }

  /** The start of a frame that is not all there yet. */
  predicate Partial(part: seq<byte>, f: Frame) {
    Sendable(f) && part < Encoded(f)
  }

  lemma PartIsKept(part: seq<byte>, f: Frame)
    requires Partial(part, f)
    ensures HeaderStream.Frames(part) == ([], part)
    ensures |part| >= 9 ==> part[..9] == Header(f)
  {
    HeaderIsRead(f);
    if |part| >= 9 {
      assert part[..9] == Header(f);
    }
  }

  function HeadersOf(frames: seq<Frame>): (hs: seq<seq<byte>>)
    requires AllSendable(frames)
    ensures |hs| == |frames|
    ensures forall i :: 0 <= i < |frames| ==> hs[i] == Header(frames[i])
  {
    seq(|frames|, i requires 0 <= i < |frames| => Header(frames[i]))
  }

  /** The parser finds the frames that were sent. */
  lemma {:induction false} WireIsCut(frames: seq<Frame>, part: seq<byte>, f: Frame)
    requires AllSendable(frames) && Partial(part, f)
    ensures HeaderStream.Frames(Wire(frames) + part) == (HeadersOf(frames), part)
  {
    if frames == [] {
      PartIsKept(part, f);
      assert Wire(frames) + part == part;
    } else {
      var more := Wire(frames[1..]) + part;
      WireIsCut(frames[1..], part, f);
      assert Wire(frames) + part == Encoded(frames[0]) + more;
      FrameIsCut(frames[0], more);
      assert HeadersOf(frames) == [Header(frames[0])] + HeadersOf(frames[1..]);
    }
  }

  // ----------------------------------------------------------------- what is owed

  lemma HeadersAreRead(frames: seq<Frame>)
    requires AllSendable(frames)
    ensures Headers(HeadersOf(frames))
    ensures forall i :: 0 <= i < |frames| ==> (StartsBlock(HeadersOf(frames)[i]) <==> frames[i].kind == 1)
    ensures forall i :: 0 <= i < |frames| ==> (EndsBlock(HeadersOf(frames)[i]) <==> EndsHeaders(frames[i]))
  {
    forall i | 0 <= i < |frames| ensures |HeadersOf(frames)[i]| == 9 { HeaderIsRead(frames[i]); }
    forall i | 0 <= i < |frames|
      ensures StartsBlock(HeadersOf(frames)[i]) <==> frames[i].kind == 1
      ensures EndsBlock(HeadersOf(frames)[i]) <==> EndsHeaders(frames[i])
    {
      HeaderIsRead(frames[i]);
    }
  }

  lemma LastEnd(frames: seq<Frame>, from: nat) returns (j: nat)
    requires from < |frames| && EndsHeaders(frames[from])
    ensures from <= j < |frames| && EndsHeaders(frames[j])
    ensures forall i :: j < i < |frames| ==> !EndsHeaders(frames[i])
  {
    j := from;
    for k := from + 1 to |frames|
      invariant from <= j < k && EndsHeaders(frames[j])
      invariant forall i :: j < i < k ==> !EndsHeaders(frames[i])
    {
      if EndsHeaders(frames[k]) { j := k; }
    }
  }

  lemma SettledOrOpen(frames: seq<Frame>)
    requires AllSendable(frames)
    ensures var hs := HeadersOf(frames);
            && Headers(hs)
            && (Settled(frames) <==>
                  && !NoneEnds(hs, 0)
                  && !exists j :: 0 <= j < |hs| && StartsBlock(hs[j]) && NoneEnds(hs, j))
  {
    var hs := HeadersOf(frames);
    HeadersAreRead(frames);
    if i :| 0 <= i < |hs| && EndsBlock(hs[i]) {
      var j := LastEnd(frames, i);
      if k :| j < k < |frames| && frames[k].kind == 1 {
        assert StartsBlock(hs[k]) && NoneEnds(hs, k);
      }
    }
    if Settled(frames) {
      var j :| 0 <= j < |frames| && EndsHeaders(frames[j]) && forall i :: j < i < |frames| ==> frames[i].kind != 1;
      assert EndsBlock(hs[j]);
    }
  }

  lemma PrefaceIsGreeting()
    ensures Ascii(GREETING) == PREFACE
  {
  }

  lemma PartBegins(part: seq<byte>, f: Frame)
    requires Partial(part, f)
    ensures var begun := Begun(part);
            (exists j :: 0 <= j < |begun| && StartsBlock(begun[j])) <==> |part| >= 9 && f.kind == 1
  {
    PartIsKept(part, f);
    HeaderIsRead(f);
    var begun := Begun(part);
    if |part| >= 9 {
      assert begun[0] == Header(f) && |begun| == 1;
    }
  }

  /** A client that sent the preface and frames, the last of them in part, owes no headers if and only if a header
      block has ended and no HEADERS frame, in part or not, has begun since. */
  lemma OwesByFrames(frames: seq<Frame>, part: seq<byte>, f: Frame)
    requires AllSendable(frames) && Partial(part, f)
    ensures Owes(PREFACE + (Wire(frames) + part)) <==> !Settled(frames) || (|part| >= 9 && f.kind == 1)
  {
    var s := Wire(frames) + part;
    assert (PREFACE + s)[|PREFACE|..] == s;
    WireIsCut(frames, part, f);
    SettledOrOpen(frames);
    PartBegins(part, f);
  }

  /** However and whenever the bytes of a client that speaks HTTP/2 are read, the deadline is unset if and only if a
      header block has ended and no HEADERS frame has begun since. */
  lemma FramesLiftDeadline(timeout: nat, start: Instant, parts: seq<Read>, frames: seq<Frame>,
                           part: seq<byte>, f: Frame)
    requires AllSendable(frames) && Partial(part, f)
    requires Joint(parts) == Ascii(GREETING) + (Wire(frames) + part)
    ensures FedReads(timeout, Tracker(Unknown(0), Some(start)), parts).deadline.None? <==>
            Settled(frames) && !(|part| >= 9 && f.kind == 1)
  {
    PrefaceIsGreeting();
    TimeoutIsAccurate(timeout, start, parts);
    OwesByFrames(frames, part, f);
  }

  // -------------------------------------------------------- any bytes are frames

  function Framed(h: seq<byte>, payload: seq<byte>): Frame
    requires |h| == 9 && |payload| == PayloadLen(h)
  {
    Frame(h[3], h[4], h[5..9], payload)
  }

  lemma LengthIsWritten(a: nat, b: nat, c: nat)
    requires a < 256 && b < 256 && c < 256
    ensures var n := a * 0x10000 + b * 0x100 + c;
            n < 0x1000000 && n / 0x10000 == a && n / 0x100 % 0x100 == b && n % 0x100 == c
  {
    assert (a * 0x10000 + b * 0x100 + c) / 0x100 == a * 0x100 + b;
  }

  lemma FramedIs(h: seq<byte>, payload: seq<byte>)
    requires |h| == 9 && |payload| == PayloadLen(h)
    ensures Sendable(Framed(h, payload)) && Encoded(Framed(h, payload)) == h + payload
  {
    LengthIsWritten(h[0] as nat, h[1] as nat, h[2] as nat);
  }

  function Zeros(n: nat): seq<byte> {
    seq(n, _ => 0)
  }

  /** Whatever a client sends behind the preface is frames, and the start of another. */
  lemma {:induction false} AnythingIsFrames(s: seq<byte>) returns (frames: seq<Frame>, part: seq<byte>, f: Frame)
    ensures AllSendable(frames) && Partial(part, f) && s == Wire(frames) + part
    decreases |s|
  {
    var h := if |s| < 9 then s + Zeros(9 - |s|) else s[..9];
    var n := PayloadLen(h);
    if |s| < 9 + n || |s| < 9 {
      var all := if |s| < 9 then h + Zeros(n) else s + Zeros(9 + n - |s|);
      frames, part, f := [], s, Framed(h, all[9..]);
      FramedIs(h, all[9..]);
      assert all == h + all[9..] && s < all;
      assert s == [] + s;
    } else {
      var first, more := Framed(h, s[9..9 + n]), s[9 + n..];
      FramedIs(h, s[9..9 + n]);
      frames, part, f := AnythingIsFrames(more);
      assert s == Encoded(first) + more;
      frames := [first] + frames;
      assert frames[1..] + [] == frames[1..];
      assert s == Wire(frames) + part;
    }
  }
}
