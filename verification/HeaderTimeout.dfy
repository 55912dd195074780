/** Follows the bytes a client sends, to tell whether it owes the headers of a request: sections
    3.4 (the connection preface), 4.1 (the frame header), 6.2 (HEADERS) and 6.10 (CONTINUATION) of
    RFC 9113. */
module HeaderTimeout {
  import opened Wrappers

  newtype byte = x: int | 0 <= x < 256

  type Instant = nat

  /** "PRI * HTTP/2.0\r\n\r\nSM\r\n\r\n" */
  const PREFACE: seq<byte> :=
    [0x50, 0x52, 0x49, 0x20, 0x2a, 0x20, 0x48, 0x54, 0x54, 0x50, 0x2f, 0x32,
     0x2e, 0x30, 0x0d, 0x0a, 0x0d, 0x0a, 0x53, 0x4d, 0x0d, 0x0a, 0x0d, 0x0a]
  const FRAME_HEADER_LEN: nat := 9
  const HEADERS: byte := 0x1
  const CONTINUATION: byte := 0x9

  predicate EndHeaders(flags: byte) {
    (flags / 4) % 2 == 1
  }

  datatype Protocol =
    | Unknown(matched: nat)
    | Http1
    | Http2(header: seq<byte>, payloadLeft: nat, endsHeaders: bool)

  /** The protocol followed so far, and when the client is out of time. */
  datatype Tracker = Tracker(protocol: Protocol, deadline: Option<Instant>)

  function PayloadLen(header: seq<byte>): nat
    requires |header| == FRAME_HEADER_LEN
  {
    header[0] as nat * 0x10000 + header[1] as nat * 0x100 + header[2] as nat
  }

  predicate StartsBlock(header: seq<byte>)
    requires |header| == FRAME_HEADER_LEN
  {
    header[3] == HEADERS
  }

  predicate EndsBlock(header: seq<byte>)
    requires |header| == FRAME_HEADER_LEN
  {
    (header[3] == HEADERS || header[3] == CONTINUATION) && EndHeaders(header[4])
  }

  ghost predicate Sound(t: Tracker) {
    match t.protocol
    case Unknown(matched) => matched < |PREFACE|
    case Http1 => true
    case Http2(header, payloadLeft, _) =>
      |header| <= FRAME_HEADER_LEN && (|header| == FRAME_HEADER_LEN <==> payloadLeft > 0)
  }

  /** The frame whose header and payload so far were read has this much payload left. */
  function InFrame(header: seq<byte>, left: nat, ends: bool, deadline: Option<Instant>): Tracker {
    if left == 0 then Tracker(Http2([], 0, ends), if ends then None else deadline)
    else Tracker(Http2(header, left, ends), deadline)
  }

  /** One byte, read at `now`. */
  function Fed(timeout: nat, t: Tracker, b: byte, now: Instant): (t': Tracker)
    requires Sound(t)
    ensures Sound(t')
    ensures t.deadline.Some? ==> t'.deadline == None || t'.deadline == t.deadline
    ensures t.deadline.None? && t'.deadline.Some? ==> t'.deadline == Some(now + timeout)
  {
    match t.protocol
    case Http1 => t
    case Unknown(matched) =>
      if b != PREFACE[matched] then Tracker(Http1, None)
      else if matched + 1 == |PREFACE| then t.(protocol := Http2([], 0, false))
      else t.(protocol := Unknown(matched + 1))
    case Http2(header, left, ends) =>
      if |header| < FRAME_HEADER_LEN then
        var header' := header + [b];
        if |header'| < FRAME_HEADER_LEN then t.(protocol := Http2(header', 0, ends))
        else
          InFrame(header', PayloadLen(header'), EndsBlock(header'),
                  Started(timeout, header', t.deadline, now))
      else
        InFrame(header, left - 1, ends, t.deadline)
  }

  /** The bytes in order, each read at the instant of its read. */
  function FedAll(timeout: nat, t: Tracker, bytes: seq<byte>, now: Instant): (t': Tracker)
    requires Sound(t)
    ensures Sound(t')
  {
    if bytes == [] then t
    else Fed(timeout, FedAll(timeout, t, bytes[..|bytes| - 1], now), bytes[|bytes| - 1], now)
  }

  lemma {:induction false} FedSplit(timeout: nat, t: Tracker, a: seq<byte>, b: seq<byte>, now: Instant)
    requires Sound(t)
    ensures FedAll(timeout, t, a + b, now) == FedAll(timeout, FedAll(timeout, t, a, now), b, now)
  {
    if b == [] {
      assert a + b == a;
    } else {
      var last := |b| - 1;
      FedSplit(timeout, t, a, b[..last], now);
      assert (a + b)[..|a + b| - 1] == a + b[..last];
    }
  }

  /** Reads while the payload of a frame comes in. */
  lemma {:induction false} FedPayload(timeout: nat, t: Tracker, bytes: seq<byte>, now: Instant)
    requires Sound(t) && t.protocol.Http2? && |t.protocol.header| == FRAME_HEADER_LEN
    requires |bytes| <= t.protocol.payloadLeft
    ensures FedAll(timeout, t, bytes, now) ==
            InFrame(t.protocol.header, t.protocol.payloadLeft - |bytes|, t.protocol.endsHeaders, t.deadline)
  {
    if bytes != [] {
      FedPayload(timeout, t, bytes[..|bytes| - 1], now);
    }
  }

  /** Reads while a frame header comes in. */
  lemma {:induction false} FedHeader(timeout: nat, t: Tracker, bytes: seq<byte>, now: Instant)
    requires Sound(t) && t.protocol.Http2? && |t.protocol.header| + |bytes| < FRAME_HEADER_LEN
    ensures FedAll(timeout, t, bytes, now) ==
            t.(protocol := Http2(t.protocol.header + bytes, 0, t.protocol.endsHeaders))
  {
    if bytes != [] {
      var last := |bytes| - 1;
      FedHeader(timeout, t, bytes[..last], now);
      assert t.protocol.header + bytes[..last] + [bytes[last]] == t.protocol.header + bytes;
    } else {
      assert t.protocol.header + bytes == t.protocol.header;
    }
  }

  /** The deadline once a whole frame header was read. */
  function Started(timeout: nat, header: seq<byte>, deadline: Option<Instant>, now: Instant): Option<Instant>
    requires |header| == FRAME_HEADER_LEN
  {
    if StartsBlock(header) && deadline.None? then Some(now + timeout) else deadline
  }

  /** The read that completes a frame header, and what it holds of the payload. */
  lemma FedFrame(timeout: nat, t: Tracker, head: seq<byte>, payload: seq<byte>, now: Instant)
    requires Sound(t) && t.protocol.Http2? && head != []
    requires |t.protocol.header| + |head| == FRAME_HEADER_LEN
    requires |payload| <= PayloadLen(t.protocol.header + head)
    ensures var header := t.protocol.header + head;
            FedAll(timeout, t, head + payload, now) ==
            InFrame(header, PayloadLen(header) - |payload|, EndsBlock(header),
                    Started(timeout, header, t.deadline, now))
  {
    var last := |head| - 1;
    var header := t.protocol.header + head;
    FedHeader(timeout, t, head[..last], now);
    assert t.protocol.header + head[..last] + [head[last]] == header;
    var whole := InFrame(header, PayloadLen(header), EndsBlock(header),
                         Started(timeout, header, t.deadline, now));
    assert FedAll(timeout, t, head, now) == whole;
    FedSplit(timeout, t, head, payload, now);
    if payload != [] {
      FedPayload(timeout, whole, payload, now);
    }
  }

  /** Reads while the preface matches. */
  lemma {:induction false} FedPreface(timeout: nat, t: Tracker, bytes: seq<byte>, now: Instant)
    requires Sound(t) && t.protocol.Unknown?
    requires t.protocol.matched + |bytes| <= |PREFACE|
    requires bytes == PREFACE[t.protocol.matched..][..|bytes|]
    ensures FedAll(timeout, t, bytes, now) ==
            if t.protocol.matched + |bytes| == |PREFACE| then t.(protocol := Http2([], 0, false))
            else t.(protocol := Unknown(t.protocol.matched + |bytes|))
  {
    if bytes != [] {
      var last := |bytes| - 1;
      FedPreface(timeout, t, bytes[..last], now);
      assert bytes[last] == PREFACE[t.protocol.matched + last];
    }
  }

  lemma {:induction false} FedHttp1(timeout: nat, t: Tracker, bytes: seq<byte>, now: Instant)
    requires t.protocol.Http1?
    ensures FedAll(timeout, t, bytes, now) == t
  {
    if bytes != [] {
      FedHttp1(timeout, t, bytes[..|bytes| - 1], now);
    }
  }

  /** A byte that is not the preface's makes it http/1, whatever follows. */
  lemma FedMismatch(timeout: nat, t: Tracker, bytes: seq<byte>, i: nat, now: Instant)
    requires Sound(t) && t.protocol.Unknown? && i < |bytes| && t.protocol.matched + i < |PREFACE|
    requires bytes[..i] == PREFACE[t.protocol.matched..][..i]
    requires bytes[i] != PREFACE[t.protocol.matched + i]
    ensures FedAll(timeout, t, bytes, now) == Tracker(Http1, None)
  {
    FedPreface(timeout, t, bytes[..i], now);
    assert bytes[..i + 1][..i] == bytes[..i];
    assert FedAll(timeout, t, bytes[..i + 1], now) == Tracker(Http1, None);
    assert bytes == bytes[..i + 1] + bytes[i + 1..];
    FedSplit(timeout, t, bytes[..i + 1], bytes[i + 1..], now);
    FedHttp1(timeout, Tracker(Http1, None), bytes[i + 1..], now);
  }

  lemma FirstDifference(a: seq<byte>, b: seq<byte>) returns (i: nat)
    requires |a| == |b| && a != b
    ensures i < |a| && a[i] != b[i] && a[..i] == b[..i]
  {
    if a[0] != b[0] {
      i := 0;
    } else {
      assert a == [a[0]] + a[1..] && b == [b[0]] + b[1..];
      var j := FirstDifference(a[1..], b[1..]);
      i := j + 1;
      assert a[..i] == [a[0]] + a[1..][..j] && b[..i] == [b[0]] + b[1..][..j];
    }
  }

  /** A read compared with as much of the preface as it covers. */
  lemma ReadMismatch(timeout: nat, t: Tracker, read: seq<byte>, len: nat, now: Instant)
    requires Sound(t) && t.protocol.Unknown?
    requires len <= |read| && len <= |PREFACE[t.protocol.matched..]|
    requires read[..len] != PREFACE[t.protocol.matched..][..len]
    ensures FedAll(timeout, t, read, now) == Tracker(Http1, None)
  {
    var expected := PREFACE[t.protocol.matched..];
    var i := FirstDifference(read[..len], expected[..len]);
    assert read[..len][..i] == read[..i] && expected[..len][..i] == expected[..i];
    FedMismatch(timeout, t, read, i, now);
  }

  datatype Polled = Pending | Bytes(read: seq<byte>) | Failed | TimedOut

  /** The tracker after a poll of the inner stream, and what the poll of this one returns. */
  function AfterPoll(timeout: Option<nat>, t: Tracker, inner: Polled, now: Instant): (Tracker, Polled)
    requires Sound(t)
  {
    var t' := if inner.Bytes? && timeout.Some? then FedAll(timeout.value, t, inner.read, now) else t;
    (t', if !inner.Failed? && t'.deadline.Some? && t'.deadline.value <= now then TimedOut else inner)
  }

  /** The frame being read. */
  class Frames {
    const header: array<byte>
    var headerLen: nat
    var payloadLeft: nat
    var endsHeaders: bool

    constructor ()
      ensures fresh(header) && header.Length == FRAME_HEADER_LEN
      ensures headerLen == 0 && payloadLeft == 0 && !endsHeaders
    {
      header := new byte[FRAME_HEADER_LEN](_ => 0);
      headerLen, payloadLeft, endsHeaders := 0, 0, false;
    }

    ghost predicate Valid()
      reads this
    {
      && header.Length == FRAME_HEADER_LEN && headerLen <= FRAME_HEADER_LEN
      && (headerLen == FRAME_HEADER_LEN <==> payloadLeft > 0)
    }

    ghost function View(): Protocol
      requires header.Length == FRAME_HEADER_LEN && headerLen <= FRAME_HEADER_LEN
      reads this, header
    {
      Http2(header[..headerLen], payloadLeft, endsHeaders)
    }

    /** Takes what it can of the frame header; `whole` once all of it was read. */
    method TakeHeader(read: seq<byte>) returns (rest: seq<byte>, whole: bool)
      requires Valid() && headerLen < FRAME_HEADER_LEN && read != []
      modifies this`headerLen, header
      ensures header.Length == FRAME_HEADER_LEN && headerLen <= FRAME_HEADER_LEN
      ensures |rest| < |read| && rest == read[|read| - |rest|..]
      ensures header[..headerLen] == old(header[..headerLen]) + read[..|read| - |rest|]
      ensures whole <==> headerLen == FRAME_HEADER_LEN
      ensures !whole ==> rest == []
    {
      var len := if |read| < FRAME_HEADER_LEN - headerLen then |read| else FRAME_HEADER_LEN - headerLen;
      forall i | 0 <= i < len {
        header[headerLen + i] := read[i];
      }
      headerLen := headerLen + len;
      rest := read[len..];
      whole := headerLen == FRAME_HEADER_LEN;
    }
  }

  datatype Following = Preface(matched: nat) | Plain | Multiplexed(frames: Frames)

  /** A stream whose reads fail once the client owes the headers of a request for too long. */
  class HeaderTimeout {
    const timeout: Option<nat>
    var deadline: Option<Instant>
    var protocol: Following

    constructor (timeout: Option<nat>, now: Instant)
      ensures Valid() && fresh(Repr()) && this.timeout == timeout
      ensures View() == Tracker(Unknown(0), if timeout.Some? then Some(now + timeout.value) else None)
    {
      this.timeout := timeout;
      deadline := if timeout.Some? then Some(now + timeout.value) else None;
      protocol := Preface(0);
    }

    ghost function Repr(): set<object>
      reads this
    {
      match protocol
      case Multiplexed(frames) => {this, frames, frames.header}
      case _ => {this}
    }

    ghost predicate Valid()
      reads this, Repr()
    {
      match protocol
      case Preface(matched) => matched < |PREFACE|
      case Plain => true
      case Multiplexed(frames) => frames.Valid()
    }

    ghost function View(): Tracker
      requires Valid()
      reads this, Repr()
      ensures Sound(View())
    {
      Tracker(match protocol
              case Preface(matched) => Unknown(matched)
              case Plain => Http1
              case Multiplexed(frames) => frames.View(),
              deadline)
    }

    method ReadPreface(read: seq<byte>, now: Instant) returns (rest: seq<byte>)
      requires Valid() && protocol.Preface? && timeout.Some? && read != []
      modifies this
      ensures Valid() && fresh(Repr() - {this}) && |rest| < |read| && rest == read[|read| - |rest|..]
      ensures View() == FedAll(timeout.value, old(View()), read[..|read| - |rest|], now)
    {
      ghost var t := View();
      var matched := protocol.matched;
      var expected := PREFACE[matched..];
      var len := if |read| < |expected| then |read| else |expected|;
      if read[..len] != expected[..len] {
        ReadMismatch(timeout.value, t, read, len, now);
        protocol := Plain;
        deadline := None;
        assert read[..|read|] == read;
        return [];
      }
      FedPreface(timeout.value, t, read[..len], now);
      rest := read[len..];
      assert read[..|read| - |rest|] == read[..len];
      if matched + len == |PREFACE| {
        var frames := new Frames();
        protocol := Multiplexed(frames);
      } else {
        protocol := Preface(matched + len);
      }
    }

    /** Takes what the read holds of the current frame's payload. */
    method TakePayload(read: seq<byte>) returns (rest: seq<byte>)
      requires protocol.Multiplexed?
      requires protocol.frames.header.Length == FRAME_HEADER_LEN
      requires protocol.frames.headerLen == FRAME_HEADER_LEN
      modifies this`deadline, protocol.frames
      ensures Valid() && |rest| <= |read| && rest == read[|read| - |rest|..]
      ensures |read| - |rest| <= old(protocol.frames.payloadLeft)
      ensures read != [] && old(protocol.frames.payloadLeft) > 0 ==> |rest| < |read|
      ensures View() == InFrame(old(protocol.frames.header[..]),
                                old(protocol.frames.payloadLeft) - (|read| - |rest|),
                                old(protocol.frames.endsHeaders), old(deadline))
    {
      var frames := protocol.frames;
      var len := if |read| < frames.payloadLeft then |read| else frames.payloadLeft;
      frames.payloadLeft := frames.payloadLeft - len;
      rest := read[len..];
      if frames.payloadLeft == 0 {
        frames.headerLen := 0;
        if frames.endsHeaders {
          deadline := None;
        }
      }
      assert frames.header[..FRAME_HEADER_LEN] == frames.header[..];
    }

    /** Reads the fields of a whole frame header, and starts the deadline of a header block. */
    method StartFrame(now: Instant)
      requires protocol.Multiplexed? && timeout.Some?
      requires protocol.frames.header.Length == FRAME_HEADER_LEN
      modifies this`deadline, protocol.frames`payloadLeft, protocol.frames`endsHeaders
      ensures var header := protocol.frames.header[..];
              && protocol.frames.payloadLeft == PayloadLen(header)
              && protocol.frames.endsHeaders == EndsBlock(header)
              && deadline == Started(timeout.value, header, old(deadline), now)
    {
      var frames := protocol.frames;
      var kind, flags := frames.header[3], frames.header[4];
      frames.payloadLeft :=
        frames.header[0] as nat * 0x10000 + frames.header[1] as nat * 0x100 + frames.header[2] as nat;
      frames.endsHeaders := (kind == HEADERS || kind == CONTINUATION) && EndHeaders(flags);
      if kind == HEADERS && deadline.None? {
        deadline := Some(now + timeout.value);
      }
    }

    /** The rest of the read that completed a frame header. */
    method BeginFrame(body: seq<byte>, now: Instant) returns (rest: seq<byte>)
      requires protocol.Multiplexed? && timeout.Some?
      requires protocol.frames.header.Length == FRAME_HEADER_LEN
      requires protocol.frames.headerLen == FRAME_HEADER_LEN
      modifies this`deadline, protocol.frames
      ensures Valid() && |rest| <= |body| && rest == body[|body| - |rest|..]
      ensures var header := old(protocol.frames.header[..]);
              && |body| - |rest| <= PayloadLen(header)
              && View() == InFrame(header, PayloadLen(header) - (|body| - |rest|), EndsBlock(header),
                                   Started(timeout.value, header, old(deadline), now))
    {
      ghost var header := protocol.frames.header[..];
      StartFrame(now);
      assert protocol.frames.header[..] == header;
      rest := TakePayload(body);
    }

    /** A read while the frame header is not whole. */
    method ReadHeader(read: seq<byte>, now: Instant) returns (rest: seq<byte>)
      requires Valid() && protocol.Multiplexed? && timeout.Some? && read != []
      requires protocol.frames.headerLen < FRAME_HEADER_LEN
      modifies Repr()
      ensures Valid() && protocol == old(protocol)
      ensures |rest| < |read| && rest == read[|read| - |rest|..]
      ensures View() == FedAll(timeout.value, old(View()), read[..|read| - |rest|], now)
    {
      ghost var t := View();
      var body, whole := protocol.frames.TakeHeader(read);
      ghost var head := read[..|read| - |body|];
      assert protocol.frames.header[..protocol.frames.headerLen] == t.protocol.header + head;
      if !whole {
        FedHeader(timeout.value, t, head, now);
        return body;
      }
      assert protocol.frames.header[..FRAME_HEADER_LEN] == protocol.frames.header[..];
      assert protocol.frames.header[..] == t.protocol.header + head;
      rest := BeginFrame(body, now);
      Joined(read, body, rest);
      FedFrame(timeout.value, t, head, body[..|body| - |rest|], now);
    }

    method ReadFrame(read: seq<byte>, now: Instant) returns (rest: seq<byte>)
      requires Valid() && protocol.Multiplexed? && timeout.Some? && read != []
      modifies Repr()
      ensures Valid() && protocol == old(protocol)
      ensures |rest| < |read| && rest == read[|read| - |rest|..]
      ensures View() == FedAll(timeout.value, old(View()), read[..|read| - |rest|], now)
    {
      if protocol.frames.headerLen < FRAME_HEADER_LEN {
        rest := ReadHeader(read, now);
      } else {
        ghost var t := View();
        assert protocol.frames.header[..] == t.protocol.header;
        rest := TakePayload(read);
        FedPayload(timeout.value, t, read[..|read| - |rest|], now);
      }
    }

    /** One turn of the loop, with what is left of the read afterwards. */
    method ReadSome(read: seq<byte>, now: Instant) returns (rest: seq<byte>)
      requires Valid() && timeout.Some? && read != []
      modifies Repr()
      ensures Valid() && fresh(Repr() - old(Repr()))
      ensures |rest| < |read| && rest == read[|read| - |rest|..]
      ensures View() == FedAll(timeout.value, old(View()), read[..|read| - |rest|], now)
    {
      match protocol {
        case Plain =>
          FedHttp1(timeout.value, View(), read, now);
          assert read[..|read|] == read;
          rest := [];
        case Preface(_) => rest := ReadPreface(read, now);
        case Multiplexed(_) => rest := ReadFrame(read, now);
      }
    }

    /** Follows the bytes of one read: the same as feeding them one by one. Without a timeout
        nothing is followed. */
    method OnRead(read: seq<byte>, now: Instant)
      requires Valid()
      modifies Repr()
      ensures Valid() && fresh(Repr() - old(Repr()))
      ensures View() == if timeout.Some? then FedAll(timeout.value, old(View()), read, now) else old(View())
    {
      if timeout.None? {
        return;
      }
      ghost var t := View();
      var left := read;
      while left != []
        invariant Valid() && fresh(Repr() - old(Repr()))
        invariant |left| <= |read| && left == read[|read| - |left|..]
        invariant View() == FedAll(timeout.value, t, read[..|read| - |left|], now)
        decreases |left|
      {
        ghost var before := left;
        left := ReadSome(left, now);
        Joined(read, before, left);
        FedSplit(timeout.value, t, read[..|read| - |before|], before[..|before| - |left|], now);
      }
      assert read[..|read|] == read;
    }

    /** A poll of the stream, when the inner stream's poll gives `inner`. */
    method PollRead(inner: Polled, now: Instant) returns (outcome: Polled)
      requires Valid()
      modifies Repr()
      ensures Valid() && fresh(Repr() - old(Repr()))
      ensures (View(), outcome) == AfterPoll(timeout, old(View()), inner, now)
    {
      if inner.Bytes? {
        OnRead(inner.read, now);
      }
      if !inner.Failed? && deadline.Some? && deadline.value <= now {
        return TimedOut;
      }
      return inner;
    }
  }

  /** Dropping a front of a suffix leaves a suffix. */
  lemma Joined(read: seq<byte>, body: seq<byte>, rest: seq<byte>)
    requires |rest| <= |body| <= |read|
    requires body == read[|read| - |body|..] && rest == body[|body| - |rest|..]
    ensures rest == read[|read| - |rest|..]
    ensures read[..|read| - |body|] + body[..|body| - |rest|] == read[..|read| - |rest|]
  {
  }
}
