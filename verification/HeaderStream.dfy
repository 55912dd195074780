/** The header tracker against a parser of the whole stream. */
module HeaderStream {
  import opened Wrappers
  import opened HeaderTimeout

  /** The headers of the frames that arrived whole, and the bytes after them. */
  function Frames(s: seq<byte>): (seq<seq<byte>>, seq<byte>)
    ensures forall i :: 0 <= i < |Frames(s).0| ==> |Frames(s).0[i]| == FRAME_HEADER_LEN
  {
    if |s| < FRAME_HEADER_LEN || |s| < FRAME_HEADER_LEN + PayloadLen(s[..FRAME_HEADER_LEN]) then ([], s)
    else
      var (more, rest) := Frames(s[FRAME_HEADER_LEN + PayloadLen(s[..FRAME_HEADER_LEN])..]);
      ([s[..FRAME_HEADER_LEN]] + more, rest)
  }

  ghost predicate Headers(hs: seq<seq<byte>>) {
    forall i :: 0 <= i < |hs| ==> |hs[i]| == FRAME_HEADER_LEN
  }

  /** No frame from `from` on ends a header block. */
  ghost predicate NoneEnds(hs: seq<seq<byte>>, from: nat)
    requires Headers(hs)
  {
    forall i :: from <= i < |hs| ==> !EndsBlock(hs[i])
  }

  /** A HEADERS frame header was read, and no frame that arrived whole ends a block from it on. */
  ghost predicate OpenBlock(whole: seq<seq<byte>>, begun: seq<seq<byte>>)
    requires Headers(whole) && Headers(begun)
  {
    || (exists j :: 0 <= j < |whole| && StartsBlock(whole[j]) && NoneEnds(whole, j))
    || (exists j :: 0 <= j < |begun| && StartsBlock(begun[j]))
  }

  /** The header of the frame that did not arrive whole yet, if that was read. */
  function Begun(rest: seq<byte>): (hs: seq<seq<byte>>)
    ensures Headers(hs)
  {
    if |rest| >= FRAME_HEADER_LEN then [rest[..FRAME_HEADER_LEN]] else []
  }

  /** Whether a client that sent these frames owes headers, `owed` telling whether it did before. */
  ghost predicate OwedAfter(owed: bool, s: seq<byte>) {
    var (whole, rest) := Frames(s);
    (owed && NoneEnds(whole, 0)) || OpenBlock(whole, Begun(rest))
  }

  /** Whether a client owes headers after the bytes `s`: it did not send enough to tell its
      protocol, or it speaks HTTP/2 and either no frame ending a header block arrived whole yet or
      a HEADERS frame header was read since the last one did. */
  ghost predicate Owes(s: seq<byte>) {
    if |s| < |PREFACE| then s <= PREFACE
    else PREFACE <= s && OwedAfter(true, s[|PREFACE|..])
  }

  lemma NoneEndsBehind(h: seq<byte>, whole: seq<seq<byte>>, j: nat)
    requires |h| == FRAME_HEADER_LEN && Headers(whole)
    ensures Headers([h] + whole)
    ensures NoneEnds([h] + whole, j + 1) <==> NoneEnds(whole, j)
  {
    var all := [h] + whole;
    assert forall i :: 0 <= i < |whole| ==> all[i + 1] == whole[i];
    if NoneEnds(all, j + 1) {
      forall i | j <= i < |whole| ensures !EndsBlock(whole[i]) { assert !EndsBlock(all[i + 1]); }
    }
  }

  lemma NoneEndsFront(h: seq<byte>, whole: seq<seq<byte>>)
    requires |h| == FRAME_HEADER_LEN && Headers(whole)
    ensures Headers([h] + whole)
    ensures NoneEnds([h] + whole, 0) <==> !EndsBlock(h) && NoneEnds(whole, 0)
  {
    NoneEndsBehind(h, whole, 0);
    assert ([h] + whole)[0] == h;
  }

  /** One more whole frame in front. */
  lemma OwedStep(owed: bool, h: seq<byte>, whole: seq<seq<byte>>, begun: seq<seq<byte>>)
    requires |h| == FRAME_HEADER_LEN && Headers(whole) && Headers(begun)
    ensures var now := !EndsBlock(h) && (owed || StartsBlock(h));
            (owed && NoneEnds([h] + whole, 0)) || OpenBlock([h] + whole, begun) <==>
            (now && NoneEnds(whole, 0)) || OpenBlock(whole, begun)
  {
    var all := [h] + whole;
    NoneEndsFront(h, whole);
    if j :| 0 <= j < |whole| && StartsBlock(whole[j]) && NoneEnds(whole, j) {
      NoneEndsBehind(h, whole, j);
      assert all[j + 1] == whole[j];
    }
    if j :| 0 <= j < |all| && StartsBlock(all[j]) && NoneEnds(all, j) {
      if j > 0 {
        NoneEndsBehind(h, whole, j - 1);
        assert all[j] == whole[j - 1];
      }
    }
    assert all[0] == h;
  }

  /** Between frames, with the headers owed or not. */
  ghost predicate Between(t: Tracker) {
    Sound(t) && t.protocol.Http2? && t.protocol.header == []
  }

  lemma FedWhole(timeout: nat, t: Tracker, s: seq<byte>, now: Instant)
    requires Between(t) && |s| >= FRAME_HEADER_LEN
    requires |s| == FRAME_HEADER_LEN + PayloadLen(s[..FRAME_HEADER_LEN])
    ensures var h, t' := s[..FRAME_HEADER_LEN], FedAll(timeout, t, s, now);
            Between(t') && (t'.deadline.Some? <==> !EndsBlock(h) && (t.deadline.Some? || StartsBlock(h)))
  {
    var head, payload := s[..FRAME_HEADER_LEN], s[FRAME_HEADER_LEN..];
    assert [] + head == head && s == head + payload;
    FedFrame(timeout, t, head, payload, now);
  }

  lemma FedPart(timeout: nat, t: Tracker, s: seq<byte>, now: Instant)
    requires Between(t)
    requires |s| >= FRAME_HEADER_LEN ==> |s| < FRAME_HEADER_LEN + PayloadLen(s[..FRAME_HEADER_LEN])
    ensures FedAll(timeout, t, s, now).deadline.Some? <==>
            t.deadline.Some? || (|s| >= FRAME_HEADER_LEN && StartsBlock(s[..FRAME_HEADER_LEN]))
  {
    if |s| < FRAME_HEADER_LEN {
      FedHeader(timeout, t, s, now);
    } else {
      var head, payload := s[..FRAME_HEADER_LEN], s[FRAME_HEADER_LEN..];
      assert [] + head == head && s == head + payload;
      FedFrame(timeout, t, head, payload, now);
    }
  }

  lemma {:induction false} FedFrames(timeout: nat, t: Tracker, s: seq<byte>, now: Instant)
    requires Between(t)
    ensures FedAll(timeout, t, s, now).deadline.Some? <==> OwedAfter(t.deadline.Some?, s)
    decreases |s|
  {
    if |s| < FRAME_HEADER_LEN || |s| < FRAME_HEADER_LEN + PayloadLen(s[..FRAME_HEADER_LEN]) {
      FedPart(timeout, t, s, now);
      assert Begun(s) != [] ==> Begun(s)[0] == s[..FRAME_HEADER_LEN];
    } else {
      var size := FRAME_HEADER_LEN + PayloadLen(s[..FRAME_HEADER_LEN]);
      var first, more := s[..size], s[size..];
      assert first[..FRAME_HEADER_LEN] == s[..FRAME_HEADER_LEN] && s == first + more;
      FedWhole(timeout, t, first, now);
      FedSplit(timeout, t, first, more, now);
      FedFrames(timeout, FedAll(timeout, t, first, now), more, now);
      OwedStep(t.deadline.Some?, s[..FRAME_HEADER_LEN], Frames(more).0, Begun(Frames(more).1));
    }
  }

  /** From a new connection on, the deadline is set exactly while the client owes headers. */
  lemma DeadlineTellsOwed(timeout: nat, s: seq<byte>, start: Instant, now: Instant)
    ensures FedAll(timeout, Tracker(Unknown(0), Some(start)), s, now).deadline.Some? <==> Owes(s)
  {
    var t := Tracker(Unknown(0), Some(start));
    assert PREFACE[0..] == PREFACE;
    var len := if |s| < |PREFACE| then |s| else |PREFACE|;
    if s[..len] == PREFACE[..len] {
      FedPreface(timeout, t, s[..len], now);
      if |s| < |PREFACE| {
        assert s[..len] == s;
      } else {
        assert PREFACE[..len] == PREFACE;
        assert s == s[..len] + s[len..];
        FedSplit(timeout, t, s[..len], s[len..], now);
        FedFrames(timeout, FedAll(timeout, t, s[..len], now), s[len..], now);
      }
    } else {
      ReadMismatch(timeout, t, s, len, now);
    }
  }

  // ------------------------------------------------------------ splits into reads

  datatype Read = Read(bytes: seq<byte>, at: Instant)

  function Joint(parts: seq<Read>): seq<byte> {
    if parts == [] then [] else Joint(parts[..|parts| - 1]) + parts[|parts| - 1].bytes
  }

  function FedReads(timeout: nat, t: Tracker, parts: seq<Read>): (t': Tracker)
    requires Sound(t)
    ensures Sound(t')
  {
    if parts == [] then t
    else
      var last := parts[|parts| - 1];
      FedAll(timeout, FedReads(timeout, t, parts[..|parts| - 1]), last.bytes, last.at)
  }

  predicate Alike(a: Tracker, b: Tracker) {
    a.protocol == b.protocol && (a.deadline.Some? <==> b.deadline.Some?)
  }

  /** When the bytes are read changes nothing but the time of the deadline. */
  lemma {:induction false} FedAlike(timeout: nat, a: Tracker, b: Tracker, s: seq<byte>, now: Instant, now': Instant)
    requires Sound(a) && Sound(b) && Alike(a, b)
    ensures Alike(FedAll(timeout, a, s, now), FedAll(timeout, b, s, now'))
  {
    if s != [] {
      FedAlike(timeout, a, b, s[..|s| - 1], now, now');
    }
  }

  /** However the bytes are split into reads, and whenever those happen, the tracker ends in the
      state it is in after the bytes at once; the very same when the reads happen at that time. */
  lemma {:induction false} SplitsDoNotMatter(timeout: nat, t: Tracker, parts: seq<Read>, now: Instant)
    requires Sound(t)
    ensures Alike(FedReads(timeout, t, parts), FedAll(timeout, t, Joint(parts), now))
    ensures (forall i :: 0 <= i < |parts| ==> parts[i].at == now) ==>
              FedReads(timeout, t, parts) == FedAll(timeout, t, Joint(parts), now)
  {
    if parts != [] {
      var init, last := parts[..|parts| - 1], parts[|parts| - 1];
      SplitsDoNotMatter(timeout, t, init, now);
      FedSplit(timeout, t, Joint(init), last.bytes, now);
      FedAlike(timeout, FedReads(timeout, t, init), FedAll(timeout, t, Joint(init), now),
               last.bytes, last.at, now);
    }
  }

  /** A connection's deadline is set after any reads exactly while the client owes headers. */
  lemma TimeoutIsAccurate(timeout: nat, start: Instant, parts: seq<Read>)
    ensures FedReads(timeout, Tracker(Unknown(0), Some(start)), parts).deadline.Some? <==>
            Owes(Joint(parts))
  {
    SplitsDoNotMatter(timeout, Tracker(Unknown(0), Some(start)), parts, 0);
    DeadlineTellsOwed(timeout, Joint(parts), start, 0);
  }

  // --------------------------------------------------------- the deadline stands

  /** After the first `n` bytes. */
  ghost predicate SetThroughout(timeout: nat, t: Tracker, s: seq<byte>, now: Instant)
    requires Sound(t)
  {
    forall n :: 0 <= n <= |s| ==> FedAll(timeout, t, s[..n], now).deadline.Some?
  }

  /** A deadline is never moved: unless some byte clears it, it stays the same instant. */
  lemma {:induction false} DeadlineIsNotMoved(timeout: nat, t: Tracker, s: seq<byte>, now: Instant)
    requires Sound(t) && SetThroughout(timeout, t, s, now)
    ensures FedAll(timeout, t, s, now).deadline == t.deadline
  {
    if s == [] {
      assert s[..0] == s;
    } else {
      var init := s[..|s| - 1];
      assert forall n :: 0 <= n <= |init| ==> init[..n] == s[..n];
      assert s[..|s|] == s;
      DeadlineIsNotMoved(timeout, t, init, now);
    }
  }

  /** The bytes never bring the client, that sent `sent` before, to where it owes no headers. */
  ghost predicate OwesThroughout(sent: seq<byte>, bytes: seq<byte>) {
    forall n :: 0 <= n <= |bytes| ==> Owes(sent + bytes[..n])
  }

  lemma OwedThroughout(timeout: nat, start: Instant, parts: seq<Read>, bytes: seq<byte>, now: Instant)
    ensures var t := FedReads(timeout, Tracker(Unknown(0), Some(start)), parts);
            SetThroughout(timeout, t, bytes, now) <==> OwesThroughout(Joint(parts), bytes)
  {
    var t := FedReads(timeout, Tracker(Unknown(0), Some(start)), parts);
    forall n | 0 <= n <= |bytes|
      ensures FedAll(timeout, t, bytes[..n], now).deadline.Some? <==> Owes(Joint(parts) + bytes[..n])
    {
      var all := parts + [Read(bytes[..n], now)];
      assert all[..|all| - 1] == parts;
      TimeoutIsAccurate(timeout, start, all);
    }
  }

  /** Once a connection is past its deadline, a read fails if and only if its bytes never bring the
      client to where it owes no headers. (With a timeout of zero a deadline that is set again has
      passed at once.) */
  lemma LaterReadFails(timeout: nat, start: Instant, parts: seq<Read>, bytes: seq<byte>, now: Instant)
    requires var t := FedReads(timeout, Tracker(Unknown(0), Some(start)), parts);
             t.deadline.Some? && t.deadline.value <= now
    ensures var t := FedReads(timeout, Tracker(Unknown(0), Some(start)), parts);
            AfterPoll(Some(timeout), t, Bytes(bytes), now).1 == TimedOut <==>
            if timeout > 0 then OwesThroughout(Joint(parts), bytes) else Owes(Joint(parts) + bytes)
  {
    var t := FedReads(timeout, Tracker(Unknown(0), Some(start)), parts);
    DeadlineBound(timeout, t, bytes, now);
    OwedThroughout(timeout, start, parts, bytes, now);
    var all := parts + [Read(bytes, now)];
    assert all[..|all| - 1] == parts;
    TimeoutIsAccurate(timeout, start, all);
  }

  /** An input after whose timeout a later read succeeds: a byte that is not the preface's tells
      http/1. */
  lemma MismatchReadsOn()
    ensures var t := Tracker(Unknown(0), Some(5));
            && AfterPoll(Some(5), t, Pending, 6) == (t, TimedOut)
            && AfterPoll(Some(5), t, Bytes([0x47]), 7) == (Tracker(Http1, None), Bytes([0x47]))
  {
    FedMismatch(5, Tracker(Unknown(0), Some(5)), [0x47], 0, 7);
  }

  lemma OneRead(timeout: nat, t: Tracker, bytes: seq<byte>, at: Instant)
    requires Sound(t)
    ensures FedReads(timeout, t, [Read(bytes, at)]) == FedAll(timeout, t, bytes, at)
  {
    assert [Read(bytes, at)][..0] == [];
  }

  lemma AfterPreface(timeout: nat, deadline: Option<Instant>, at: Instant)
    ensures FedReads(timeout, Tracker(Unknown(0), deadline), [Read(PREFACE, at)]) ==
            Tracker(Http2([], 0, false), deadline)
  {
    var start := Tracker(Unknown(0), deadline);
    var preface := PREFACE;
    assert preface[0..][..|preface|] == preface;
    FedPreface(timeout, start, preface, at);
    OneRead(timeout, start, preface, at);
  }

  /** A HEADERS frame without a payload that ends its block. */
  const WHOLE_BLOCK: seq<byte> := [0, 0, 0, HEADERS, 4, 0, 0, 0, 1]

  lemma BlockReadsOn(timeout: nat, deadline: Option<Instant>, now: Instant)
    ensures FedAll(timeout, Tracker(Http2([], 0, false), deadline), WHOLE_BLOCK, now) ==
            Tracker(Http2([], 0, true), None)
  {
    var frame := WHOLE_BLOCK;
    assert [] + frame == frame && frame + [] == frame;
    assert PayloadLen(frame) == 0 && EndsBlock(frame);
    FedFrame(timeout, Tracker(Http2([], 0, false), deadline), frame, [], now);
  }

  /** Another: after the preface, a HEADERS frame that ends its block. */
  lemma HeadersReadOn()
    ensures var t := FedReads(5, Tracker(Unknown(0), Some(5)), [Read(PREFACE, 1)]);
            && AfterPoll(Some(5), t, Pending, 6) == (t, TimedOut)
            && AfterPoll(Some(5), t, Bytes(WHOLE_BLOCK), 7) == (Tracker(Http2([], 0, true), None), Bytes(WHOLE_BLOCK))
  {
    AfterPreface(5, Some(5), 1);
    BlockReadsOn(5, Some(5), 7);
  }

  lemma {:induction false} DeadlineBound(timeout: nat, t: Tracker, s: seq<byte>, now: Instant)
    requires Sound(t) && t.deadline.Some? && t.deadline.value <= now
    ensures var d := FedAll(timeout, t, s, now).deadline;
            if SetThroughout(timeout, t, s, now) then d == t.deadline
            else d.None? || d.value == now + timeout
  {
    if s == [] {
    } else {
      var init := s[..|s| - 1];
      assert forall n :: 0 <= n <= |init| ==> init[..n] == s[..n];
      assert s[..|s|] == s;
      DeadlineBound(timeout, t, init, now);
      if SetThroughout(timeout, t, init, now) && FedAll(timeout, t, s, now).deadline.Some? {
        forall n | 0 <= n <= |s| ensures FedAll(timeout, t, s[..n], now).deadline.Some? {
          if n < |s| { assert init[..n] == s[..n]; }
        }
      }
      if !SetThroughout(timeout, t, init, now) {
        var n :| 0 <= n <= |init| && FedAll(timeout, t, init[..n], now).deadline.None?;
        assert init[..n] == s[..n];
        assert !SetThroughout(timeout, t, s, now);
      }
    }
  }
}
