/** The client's address, from the socket peer and the forwarding headers. */
module ClientIp {
  import opened Wrappers
  import opened Text

  /** A canonical address. */
  type Ip = nat

  /** Which proxies are trusted; how ranges are matched is up to `inRange`. */
  datatype TrustedProxies = NoProxies | Cidrs(inRange: Ip -> bool) | All {
    predicate Trusts(ip: Ip) {
      match this
      case NoProxies => false
      case Cidrs(inRange) => inRange(ip)
      case All => true
    }
  }

  /** A header value, which may not be text. */
  datatype Line = NotText | Text(value: string)

  datatype IpError = NotUtf8 | InvalidEntry(entry: string) | NoPeer

  /** What the walk meets: a value it cannot read, or an entry of a list. */
  datatype Hop = Unreadable | Entry(text: string)

  function Entries(parts: seq<string>): seq<Hop> {
    if parts == [] then []
    else
      var entry := Trim(parts[|parts| - 1]);
      Entries(parts[..|parts| - 1]) + (if entry == "" then [] else [Entry(entry)])
  }

  function LineHops(line: Line): seq<Hop> {
    match line
    case NotText => [Unreadable]
    case Text(value) => Entries(Split(value, ','))
  }

  /** All header instances as one list, the nearest hop last. */
  function Hops(lines: seq<Line>): seq<Hop> {
    if lines == [] then [] else Hops(lines[..|lines| - 1]) + LineHops(lines[|lines| - 1])
  }

  /** The walk from the right, having found `leftmost` trusted so far. How entries parse is up to
      `parse`. */
  function Walked(hops: seq<Hop>, leftmost: Option<Ip>, proxies: TrustedProxies,
                  parse: string -> Option<Ip>): Result<Option<Ip>, IpError>
  {
    if hops == [] then Ok(leftmost)
    else
      var init := hops[..|hops| - 1];
      match hops[|hops| - 1]
      case Unreadable => if proxies.All? then Walked(init, leftmost, proxies, parse) else Err(NotUtf8)
      case Entry(text) =>
        match parse(text)
        case None =>
          if proxies.All? then Walked(init, leftmost, proxies, parse) else Err(InvalidEntry(text))
        case Some(ip) =>
          if !proxies.Trusts(ip) then Ok(Some(ip)) else Walked(init, Some(ip), proxies, parse)
  }

  lemma WalkedStep(rest: seq<Hop>, hop: Hop, leftmost: Option<Ip>, proxies: TrustedProxies,
                   parse: string -> Option<Ip>)
    ensures Walked(rest + [hop], leftmost, proxies, parse) ==
            match hop
            case Unreadable => if proxies.All? then Walked(rest, leftmost, proxies, parse) else Err(NotUtf8)
            case Entry(text) =>
              match parse(text)
              case None =>
                if proxies.All? then Walked(rest, leftmost, proxies, parse) else Err(InvalidEntry(text))
              case Some(ip) =>
                if !proxies.Trusts(ip) then Ok(Some(ip)) else Walked(rest, Some(ip), proxies, parse)
  {
  }

  /** One more part on the right. */
  lemma EntriesStep(left: seq<Hop>, parts: seq<string>, j: nat)
    requires j < |parts|
    ensures var entry := Trim(parts[j]);
            left + Entries(parts[..j + 1]) ==
            if entry == "" then left + Entries(parts[..j]) else (left + Entries(parts[..j])) + [Entry(entry)]
  {
    assert parts[..j + 1][..j] == parts[..j];
  }

  /** The entries of one header value from the right: the result when the walk ends there. */
  method WalkEntries(ghost left: seq<Hop>, value: string, found: Option<Ip>, proxies: TrustedProxies,
                     parse: string -> Option<Ip>)
    returns (end: Option<Result<Option<Ip>, IpError>>, leftmost: Option<Ip>)
    ensures Walked(left + Entries(Split(value, ',')), found, proxies, parse) ==
            if end.Some? then end.value else Walked(left, leftmost, proxies, parse)
  {
    leftmost := found;
    var parts := Split(value, ',');
    ghost var all := Walked(left + Entries(parts), found, proxies, parse);
    assert parts[..|parts|] == parts;
    for j := |parts| downto 0
      invariant all == Walked(left + Entries(parts[..j]), leftmost, proxies, parse)
    {
      var entry := Trim(parts[j]);
      ghost var rest := left + Entries(parts[..j]);
      EntriesStep(left, parts, j);
      if entry != "" {
        WalkedStep(rest, Entry(entry), leftmost, proxies, parse);
        var ip := parse(entry);
        if ip.None? {
          if !proxies.All? {
            return Some(Err(InvalidEntry(entry))), leftmost;
          }
        } else if !proxies.Trusts(ip.value) {
          return Some(Ok(ip)), leftmost;
        } else {
          leftmost := ip;
        }
      }
    }
    assert left + Entries(parts[..0]) == left;
    end := None;
  }

  lemma HopsStep(lines: seq<Line>, i: nat)
    requires i < |lines|
    ensures Hops(lines[..i + 1]) == Hops(lines[..i]) + LineHops(lines[i])
  {
    assert lines[..i + 1][..i] == lines[..i];
  }

  /** `walk_forwarding_header`. */
  method WalkForwardingHeader(lines: seq<Line>, proxies: TrustedProxies, parse: string -> Option<Ip>)
    returns (r: Result<Option<Ip>, IpError>)
    ensures r == Walked(Hops(lines), None, proxies, parse)
  {
    var leftmost: Option<Ip> := None;
    assert lines[..|lines|] == lines;
    for i := |lines| downto 0
      invariant Walked(Hops(lines), None, proxies, parse) ==
                Walked(Hops(lines[..i]), leftmost, proxies, parse)
    {
      HopsStep(lines, i);
      match lines[i] {
        case NotText =>
          WalkedStep(Hops(lines[..i]), Unreadable, leftmost, proxies, parse);
          if proxies.All? { continue; }
          return Err(NotUtf8);
        case Text(value) =>
          var end;
          end, leftmost := WalkEntries(Hops(lines[..i]), value, leftmost, proxies, parse);
          if end.Some? {
            return end.value;
          }
      }
    }
    return Ok(leftmost);
  }

  datatype Headers = Headers(forwardedFor: seq<Line>, realIp: seq<Line>)

  /** The client's address. */
  function Client(h: Headers, peer: Option<Ip>, proxies: TrustedProxies, parse: string -> Option<Ip>)
    : Result<Ip, IpError>
  {
    var peerResult := if peer.Some? then Ok(peer.value) else Err(NoPeer);
    if !(proxies.All? || (peer.Some? && proxies.Trusts(peer.value))) then peerResult
    else
      match Walked(Hops(h.forwardedFor), None, proxies, parse)
      case Err(e) => Err(e)
      case Ok(Some(ip)) => Ok(ip)
      case Ok(None) =>
        match Walked(Hops(h.realIp), None, proxies, parse)
        case Err(e) => Err(e)
        case Ok(Some(ip)) => Ok(ip)
        case Ok(None) => peerResult
  }

  /** The result of the headers met so far: the first that has one, or none. */
  function FirstFound(headers: seq<seq<Line>>, proxies: TrustedProxies, parse: string -> Option<Ip>)
    : Result<Option<Ip>, IpError>
  {
    if headers == [] then Ok(None)
    else
      match FirstFound(headers[..|headers| - 1], proxies, parse)
      case Ok(None) => Walked(Hops(headers[|headers| - 1]), None, proxies, parse)
      case found => found
  }

  lemma FirstOfTwo(a: seq<Line>, b: seq<Line>, proxies: TrustedProxies, parse: string -> Option<Ip>)
    ensures FirstFound([a, b], proxies, parse) ==
            match Walked(Hops(a), None, proxies, parse)
            case Ok(None) => Walked(Hops(b), None, proxies, parse)
            case found => found
  {
    assert [a, b][..1] == [a] && [a][..0] == [];
    assert FirstFound([a], proxies, parse) == Walked(Hops(a), None, proxies, parse);
  }

  /** The loop over the headers: the first that yields an address or an error. */
  method WalkHeaders(headers: seq<seq<Line>>, proxies: TrustedProxies, parse: string -> Option<Ip>)
    returns (r: Result<Option<Ip>, IpError>)
    ensures r == FirstFound(headers, proxies, parse)
  {
    r := Ok(None);
    for i := 0 to |headers|
      invariant r == FirstFound(headers[..i], proxies, parse)
      invariant r == Ok(None)
    {
      assert headers[..i + 1][..i] == headers[..i];
      r := WalkForwardingHeader(headers[i], proxies, parse);
      if r != Ok(None) {
        FoundFirst(headers, i + 1, proxies, parse);
        return;
      }
    }
    assert headers[..|headers|] == headers;
  }

  lemma {:induction false} FoundFirst(headers: seq<seq<Line>>, n: nat, proxies: TrustedProxies,
                                      parse: string -> Option<Ip>)
    requires n <= |headers| && FirstFound(headers[..n], proxies, parse) != Ok(None)
    ensures FirstFound(headers, proxies, parse) == FirstFound(headers[..n], proxies, parse)
  {
    if n == |headers| {
      assert headers[..n] == headers;
    } else {
      var init := headers[..|headers| - 1];
      assert init[..n] == headers[..n];
      FoundFirst(init, n, proxies, parse);
    }
  }

  /** `get_client_ip`. */
  method GetClientIp(h: Headers, peer: Option<Ip>, proxies: TrustedProxies, parse: string -> Option<Ip>)
    returns (r: Result<Ip, IpError>)
    ensures r == Client(h, peer, proxies, parse)
  {
    var peerTrusted := match (proxies, peer)
      case (All, _) => true
      case (_, None) => false
      case (_, Some(ip)) => proxies.Trusts(ip);
    if peerTrusted {
      FirstOfTwo(h.forwardedFor, h.realIp, proxies, parse);
      var found := WalkHeaders([h.forwardedFor, h.realIp], proxies, parse);
      match found {
        case Err(e) => return Err(e);
        case Ok(Some(ip)) => return Ok(ip);
        case Ok(None) =>
      }
    }
    return if peer.Some? then Ok(peer.value) else Err(NoPeer);
  }

  // ------------------------------------------------------------ what is found

  ghost predicate TrustedHop(hop: Hop, proxies: TrustedProxies, parse: string -> Option<Ip>) {
    hop.Entry? && parse(hop.text).Some? && proxies.Trusts(parse(hop.text).value)
  }

  ghost predicate AllTrusted(hops: seq<Hop>, proxies: TrustedProxies, parse: string -> Option<Ip>) {
    forall i :: 0 <= i < |hops| ==> TrustedHop(hops[i], proxies, parse)
  }

  /** Trusted hops on the right are walked past. */
  lemma {:induction false} PastTrusted(left: seq<Hop>, right: seq<Hop>, leftmost: Option<Ip>,
                                       proxies: TrustedProxies, parse: string -> Option<Ip>)
    requires AllTrusted(right, proxies, parse)
    ensures Walked(left + right, leftmost, proxies, parse) ==
            Walked(left, if right == [] then leftmost else parse(right[0].text), proxies, parse)
  {
    var hops := left + right;
    if right == [] {
      assert hops == left;
    } else {
      var last := |right| - 1;
      assert hops[..|hops| - 1] == left + right[..last];
      assert TrustedHop(right[last], proxies, parse);
      PastTrusted(left, right[..last], parse(right[last].text), proxies, parse);
    }
  }

  /** The first hop from the right that is not a trusted proxy decides, whatever is left of it: the
      client if it is an address, else an error (unless all proxies are trusted). */
  lemma FirstUntrustedDecides(left: seq<Hop>, hop: Hop, right: seq<Hop>, leftmost: Option<Ip>,
                              proxies: TrustedProxies, parse: string -> Option<Ip>)
    requires !proxies.All? && AllTrusted(right, proxies, parse) && !TrustedHop(hop, proxies, parse)
    ensures Walked(left + [hop] + right, leftmost, proxies, parse) ==
            match hop
            case Unreadable => Err(NotUtf8)
            case Entry(text) => if parse(text).Some? then Ok(parse(text)) else Err(InvalidEntry(text))
  {
    PastTrusted(left + [hop], right, leftmost, proxies, parse);
    assert (left + [hop])[..|left|] == left;
  }

  /** When every hop is a trusted proxy the leftmost is the client. */
  lemma AllTrustedGivesLeftmost(hops: seq<Hop>, proxies: TrustedProxies, parse: string -> Option<Ip>)
    requires AllTrusted(hops, proxies, parse) && hops != []
    ensures Walked(hops, None, proxies, parse) == Ok(parse(hops[0].text))
  {
    PastTrusted([], hops, None, proxies, parse);
    assert [] + hops == hops;
    assert TrustedHop(hops[0], proxies, parse);
  }

  /** The leftmost entry that is an address. */
  function LeftmostAddress(hops: seq<Hop>, parse: string -> Option<Ip>): Option<Ip> {
    if hops == [] then None
    else if hops[0].Entry? && parse(hops[0].text).Some? then parse(hops[0].text)
    else LeftmostAddress(hops[1..], parse)
  }

  /** With all proxies trusted, what cannot be read is skipped, and the leftmost address found. */
  lemma {:induction false} AllFindsLeftmost(hops: seq<Hop>, leftmost: Option<Ip>, parse: string -> Option<Ip>)
    ensures Walked(hops, leftmost, All, parse) ==
            Ok(if LeftmostAddress(hops, parse).Some? then LeftmostAddress(hops, parse) else leftmost)
  {
    if hops != [] {
      var init, hop := hops[..|hops| - 1], hops[|hops| - 1];
      var next := if hop.Entry? && parse(hop.text).Some? then parse(hop.text) else leftmost;
      AllFindsLeftmost(init, next, parse);
      LeftmostAppend(init, hop, parse);
      assert hops == init + [hop];
    }
  }

  lemma {:induction false} LeftmostAppend(hops: seq<Hop>, hop: Hop, parse: string -> Option<Ip>)
    ensures LeftmostAddress(hops + [hop], parse) ==
            if LeftmostAddress(hops, parse).Some? then LeftmostAddress(hops, parse)
            else if hop.Entry? then parse(hop.text) else None
  {
    var all := hops + [hop];
    if hops == [] {
      assert all[1..] == [];
    } else {
      assert all[1..] == hops[1..] + [hop];
      LeftmostAppend(hops[1..], hop, parse);
    }
  }

  // ---------------------------------------------------- how a list is spread out

  lemma {:induction false} EntriesSplit(a: seq<string>, b: seq<string>)
    ensures Entries(a + b) == Entries(a) + Entries(b)
  {
    if b == [] {
      assert a + b == a;
    } else {
      var last := |b| - 1;
      EntriesSplit(a, b[..last]);
      assert (a + b)[..|a + b| - 1] == a + b[..last];
    }
  }

  /** The values as one comma separated list. */
  function OneList(values: seq<string>): string
    requires values != []
  {
    if |values| == 1 then values[0]
    else OneList(values[..|values| - 1]) + [','] + values[|values| - 1]
  }

  function AsLines(values: seq<string>): seq<Line> {
    if values == [] then [] else AsLines(values[..|values| - 1]) + [Text(values[|values| - 1])]
  }

  lemma {:induction false} SpreadHops(values: seq<string>)
    requires values != []
    ensures Hops(AsLines(values)) == Entries(Split(OneList(values), ','))
  {
    var init, last := values[..|values| - 1], values[|values| - 1];
    var lines := AsLines(values);
    assert lines[..|lines| - 1] == AsLines(init);
    if init != [] {
      SpreadHops(init);
      SplitAt(OneList(init), last, ',');
      EntriesSplit(Split(OneList(init), ','), Split(last, ','));
    }
  }

  /** Header lines of texts are met as the one line listing them all. */
  lemma SpreadDoesNotMatter(values: seq<string>)
    requires values != []
    ensures Hops(AsLines(values)) == Hops([Text(OneList(values))])
  {
    SpreadHops(values);
    assert [Text(OneList(values))][..0] == [];
  }

  // -------------------------------------------------------- over the whole request

  /** Behind a trusted peer, under ranges: the rightmost untrusted entry of `X-Forwarded-For` is the
      client when all entries right of it are addresses, whatever is left of it or in `X-Real-IP`. */
  lemma RightmostUntrustedIsClient(h: Headers, peer: Ip, proxies: TrustedProxies,
                                   parse: string -> Option<Ip>, left: seq<Hop>, text: string, right: seq<Hop>)
    requires !proxies.All? && proxies.Trusts(peer)
    requires Hops(h.forwardedFor) == left + [Entry(text)] + right
    requires AllTrusted(right, proxies, parse)
    requires parse(text).Some? && !proxies.Trusts(parse(text).value)
    ensures Client(h, Some(peer), proxies, parse) == Ok(parse(text).value)
  {
    FirstUntrustedDecides(left, Entry(text), right, None, proxies, parse);
  }

  lemma {:induction false} FoundStays(hops: seq<Hop>, leftmost: Option<Ip>, proxies: TrustedProxies,
                                      parse: string -> Option<Ip>)
    requires leftmost.Some?
    ensures Walked(hops, leftmost, proxies, parse) != Ok(None)
  {
    if hops != [] {
      var hop := hops[|hops| - 1];
      var next := if hop.Entry? && parse(hop.text).Some? then parse(hop.text) else leftmost;
      FoundStays(hops[..|hops| - 1], next, proxies, parse);
    }
  }

  /** `X-Real-IP` makes no difference once `X-Forwarded-For` has an entry (with all proxies trusted:
      one that is an address). */
  lemma RealIpIsFallback(h: Headers, realIp: seq<Line>, peer: Option<Ip>, proxies: TrustedProxies,
                         parse: string -> Option<Ip>)
    requires var hops := Hops(h.forwardedFor);
             if proxies.All? then LeftmostAddress(hops, parse).Some? else hops != []
    ensures Client(h, peer, proxies, parse) == Client(h.(realIp := realIp), peer, proxies, parse)
  {
    var hops := Hops(h.forwardedFor);
    if proxies.All? {
      AllFindsLeftmost(hops, None, parse);
    } else {
      var hop := hops[|hops| - 1];
      if hop.Entry? && parse(hop.text).Some? {
        FoundStays(hops[..|hops| - 1], parse(hop.text), proxies, parse);
      }
    }
  }

  /** Nobody vouches for what the peer sends. */
  predicate Unvouched(peer: Option<Ip>, proxies: TrustedProxies) {
    match proxies
    case NoProxies => true
    case Cidrs(inRange) => peer.None? || !inRange(peer.value)
    case All => false
  }

  function Peer(peer: Option<Ip>): Result<Ip, IpError> {
    match peer case Some(ip) => Ok(ip) case None => Err(NoPeer)
  }

  /** Without a peer, or with one that is not a trusted proxy, the client is the peer whatever the headers say. */
  lemma UntrustedPeerIsClient(h: Headers, peer: Option<Ip>, proxies: TrustedProxies, parse: string -> Option<Ip>)
    requires Unvouched(peer, proxies)
    ensures Client(h, peer, proxies, parse) == Peer(peer)
  {
  }

  /** Behind a trusted peer that sends no `X-Forwarded-For`, under ranges: the rightmost untrusted entry of
      `X-Real-IP` is the client. */
  lemma RealIpIsClient(h: Headers, peer: Option<Ip>, proxies: TrustedProxies, parse: string -> Option<Ip>,
                       left: seq<Hop>, text: string, right: seq<Hop>)
    requires !proxies.All? && !Unvouched(peer, proxies)
    requires Hops(h.forwardedFor) == [] && Hops(h.realIp) == left + [Entry(text)] + right
    requires AllTrusted(right, proxies, parse)
    requires parse(text).Some? && !proxies.Trusts(parse(text).value)
    ensures Client(h, peer, proxies, parse) == Ok(parse(text).value)
  {
    FirstUntrustedDecides(left, Entry(text), right, None, proxies, parse);
  }

  /** The entries of the first header that has any. */
  function Told(h: Headers): seq<Hop> {
    if Hops(h.forwardedFor) != [] then Hops(h.forwardedFor) else Hops(h.realIp)
  }

  lemma WalkEnds(hops: seq<Hop>, proxies: TrustedProxies, parse: string -> Option<Ip>)
    requires hops != [] && !proxies.All?
    ensures Walked(hops, None, proxies, parse) != Ok(None)
  {
    var hop := hops[|hops| - 1];
    if hop.Entry? && parse(hop.text).Some? {
      FoundStays(hops[..|hops| - 1], parse(hop.text), proxies, parse);
    }
  }

  lemma ClientByTold(h: Headers, peer: Ip, proxies: TrustedProxies, parse: string -> Option<Ip>)
    requires !proxies.All? && !Unvouched(Some(peer), proxies)
    ensures Client(h, Some(peer), proxies, parse) ==
            match Walked(Told(h), None, proxies, parse)
            case Err(e) => Err(e)
            case Ok(found) => if found.Some? then Ok(found.value) else Ok(peer)
  {
    if Hops(h.forwardedFor) != [] { WalkEnds(Hops(h.forwardedFor), proxies, parse); }
  }

  /** Behind a trusted peer, under ranges, when neither header has an entry: the peer. */
  lemma NoEntryIsPeer(h: Headers, peer: Ip, proxies: TrustedProxies, parse: string -> Option<Ip>)
    requires !proxies.All? && !Unvouched(Some(peer), proxies) && Told(h) == []
    ensures Client(h, Some(peer), proxies, parse) == Ok(peer)
  {
    ClientByTold(h, peer, proxies, parse);
  }

  /** When all entries are trusted proxies: the leftmost. */
  lemma LeftmostIsClient(h: Headers, peer: Ip, proxies: TrustedProxies, parse: string -> Option<Ip>)
    requires !proxies.All? && !Unvouched(Some(peer), proxies)
    requires Told(h) != [] && AllTrusted(Told(h), proxies, parse)
    ensures TrustedHop(Told(h)[0], proxies, parse)
    ensures Client(h, Some(peer), proxies, parse) == Ok(parse(Told(h)[0].text).value)
  {
    ClientByTold(h, peer, proxies, parse);
    AllTrustedGivesLeftmost(Told(h), proxies, parse);
  }

  /** When the first hop from the right that is no trusted proxy cannot be read, or is no address: an error. */
  lemma UnreadableIsError(h: Headers, peer: Ip, proxies: TrustedProxies, parse: string -> Option<Ip>,
                          left: seq<Hop>, hop: Hop, right: seq<Hop>)
    requires !proxies.All? && !Unvouched(Some(peer), proxies)
    requires Told(h) == left + [hop] + right && AllTrusted(right, proxies, parse)
    requires hop.Entry? ==> parse(hop.text).None?
    ensures Client(h, Some(peer), proxies, parse) ==
            Err(match hop case Unreadable => NotUtf8 case Entry(text) => InvalidEntry(text))
  {
    ClientByTold(h, peer, proxies, parse);
    FirstUntrustedDecides(left, hop, right, None, proxies, parse);
  }

  /** With all proxies trusted the client is the leftmost address of `X-Forwarded-For`, else of `X-Real-IP`, else
      the peer. */
  lemma AllTakesLeftmost(h: Headers, peer: Option<Ip>, parse: string -> Option<Ip>)
    ensures Client(h, peer, All, parse) ==
            var first, second :=
              LeftmostAddress(Hops(h.forwardedFor), parse), LeftmostAddress(Hops(h.realIp), parse);
            if first.Some? then Ok(first.value)
            else if second.Some? then Ok(second.value)
            else Peer(peer)
  {
    AllFindsLeftmost(Hops(h.forwardedFor), None, parse);
    AllFindsLeftmost(Hops(h.realIp), None, parse);
  }

  // ------------------------------------------------------- what a header lists

  /** The entries as proxies write them. */
  function Listed(entries: seq<string>): string
    requires entries != []
  {
    if |entries| == 1 then entries[0] else Listed(entries[..|entries| - 1]) + ", " + entries[|entries| - 1]
  }

  function AsHops(entries: seq<string>): seq<Hop> {
    seq(|entries|, i requires 0 <= i < |entries| => Entry(entries[i]))
  }

  lemma OneEntry(part: string, entry: string)
    requires Trim(part) == entry && entry != "" && ',' !in part
    ensures Entries(Split(part, ',')) == [Entry(entry)]
  {
    SplitWithout(part, ',');
    assert [part][..0] == [] && Entries([]) == [];
  }

  lemma SpacedEntry(entry: string)
    requires entry != "" && Trimmed(entry)
    ensures Trim(" " + entry) == entry && Trim(entry) == entry
  {
    assert (" " + entry)[1..] == entry;
    TrimmedStays(entry);
  }

  lemma ListedNext(init: seq<string>, last: string)
    requires init != [] && last != "" && Trimmed(last) && ',' !in last
    ensures Entries(Split(Listed(init + [last]), ',')) == Entries(Split(Listed(init), ',')) + [Entry(last)]
  {
    var all, part := init + [last], " " + last;
    assert all[..|all| - 1] == init;
    assert Listed(all) == Listed(init) + [','] + part;
    SplitAt(Listed(init), part, ',');
    EntriesSplit(Split(Listed(init), ','), Split(part, ','));
    SpacedEntry(last);
    OneEntry(part, last);
  }

  lemma OneLine(value: string)
    ensures Hops([Text(value)]) == Entries(Split(value, ','))
  {
    assert [Text(value)][..0] == [] && Hops([]) == [];
  }

  lemma AsHopsNext(init: seq<string>, last: string)
    ensures AsHops(init + [last]) == AsHops(init) + [Entry(last)]
  {
  }

  lemma {:induction false} ListEntries(entries: seq<string>)
    requires entries != []
    requires forall i :: 0 <= i < |entries| ==> entries[i] != "" && Trimmed(entries[i]) && ',' !in entries[i]
    ensures Entries(Split(Listed(entries), ',')) == AsHops(entries)
  {
    var init, last := entries[..|entries| - 1], entries[|entries| - 1];
    assert entries == init + [last];
    AsHopsNext(init, last);
    if init == [] {
      SpacedEntry(last);
      OneEntry(last, last);
    } else {
      ListEntries(init);
      ListedNext(init, last);
    }
  }

  /** A header line that lists entries is read as those entries in order. */
  lemma ListIsRead(entries: seq<string>)
    requires entries != []
    requires forall i :: 0 <= i < |entries| ==> entries[i] != "" && Trimmed(entries[i]) && ',' !in entries[i]
    ensures Hops([Text(Listed(entries))]) == AsHops(entries)
  {
    ListEntries(entries);
    OneLine(Listed(entries));
  }
}
