/** Which address a request is held to come from (`resolve_client_ip` in src/config.rs). The address parser
    is a parameter. */
module ClientAddress {
  import opened Cidr
  import opened Collections
  import Text

  /** `::ffff:0:0/96`, the IPv4-mapped addresses. */
  const MAPPED: nat := 0xffff_0000_0000

  predicate IsMapped(ip: Ip) { ip.family == V6 && MAPPED <= ip.value < MAPPED + 0x1_0000_0000 }

  function Normalize(ip: Ip): (r: Ip)
    ensures !IsMapped(r)
    ensures ip.family == V6 && ip.value / 0x1_0000_0000 == 0xffff ==> r == Ip(V4, ip.value % 0x1_0000_0000)
    ensures !(ip.family == V6 && ip.value / 0x1_0000_0000 == 0xffff) ==> r == ip
  {
    if IsMapped(ip) then Ip(V4, ip.value - MAPPED) else ip
  }

  /** Networks as `ipnet` admits them. */
  ghost predicate ValidNets(nets: seq<IpNet>) { forall i :: 0 <= i < |nets| ==> nets[i].prefix <= Width(nets[i].family) }

  ghost predicate Trusted(ip: Ip, nets: seq<IpNet>)
    requires ValidNets(nets)
  {
    exists i :: 0 <= i < |nets| && Contains(nets[i], ip)
  }

  type Parser = string -> Option<Ip>

  /** The pieces between commas: always at least one. */
  function Pieces(s: string): (r: seq<string>)
    ensures r != []
  {
    if s == "" then [""]
    else
      var rest := Pieces(s[1..]);
      if s[0] == ',' then [""] + rest else [[s[0]] + rest[0]] + rest[1..]
  }

  /** The readable addresses among the pieces, in order. */
  function Readable(pieces: seq<string>, parse: Parser): seq<Ip> {
    if pieces == [] then []
    else
      var text := Text.Trim(pieces[0]);
      var rest := Readable(pieces[1..], parse);
      if text == "" || parse(text) == None then rest else [Normalize(parse(text).value)] + rest
  }

  function Hops(forwarded: string, parse: Parser): seq<Ip> { Readable(Pieces(forwarded), parse) }

  /** Searching from the right. */
  ghost function RightmostUntrusted(hops: seq<Ip>, nets: seq<IpNet>): Option<Ip>
    requires ValidNets(nets)
  {
    if hops == [] then None
    else if !Trusted(hops[|hops| - 1], nets) then Some(hops[|hops| - 1])
    else RightmostUntrusted(hops[..|hops| - 1], nets)
  }

  /** The lines of the two headers, in the order received; a line that is not plain text is `None`. */
  datatype Headers = Headers(forwardedFor: seq<Option<string>>, realIp: seq<Option<string>>)

  /** `HeaderMap::get` sees the first line only. */
  function First(lines: seq<Option<string>>): Option<string> { if lines == [] then None else lines[0] }

  /** The client a forwarding line names, if any. */
  ghost function Named(line: Option<string>, nets: seq<IpNet>, parse: Parser): Option<Ip>
    requires ValidNets(nets)
  {
    if line == None then None else RightmostUntrusted(Hops(line.value, parse), nets)
  }

  /** What answers when the forwarding header names nobody. */
  function Fallback(peer: Ip, realIp: seq<Option<string>>, parse: Parser): Ip {
    var direct := if First(realIp).Some? then parse(Text.Trim(First(realIp).value)) else None;
    if direct.Some? then Normalize(direct.value) else Normalize(peer)
  }

  ghost function ResolveClientIp(peer: Ip, h: Headers, nets: seq<IpNet>, parse: Parser): Ip
    requires ValidNets(nets)
  {
    if !Trusted(Normalize(peer), nets) then Normalize(peer)
    else
      var client := Named(First(h.forwardedFor), nets, parse);
      if client.Some? then client.value else Fallback(peer, h.realIp, parse)
  }

  // ---------------------------------------------------------------- properties

  /** An untrusted peer speaks for itself, whatever its headers say. Behind a trusted one the last
      untrusted hop of the first line is the client; only when there is none does the first `X-Real-IP` line
      answer, and only when that is missing or unreadable the peer. No answer is IPv4-mapped. */
  lemma {:induction false} ClientIsLastUntrusted(peer: Ip, h: Headers, nets: seq<IpNet>, parse: Parser)
    requires ValidNets(nets)
    ensures var client := ResolveClientIp(peer, h, nets, parse);
            var hops := if First(h.forwardedFor).Some? then Hops(First(h.forwardedFor).value, parse) else [];
            && !IsMapped(client)
            && (!Trusted(Normalize(peer), nets) ==> client == Normalize(peer))
            && (Trusted(Normalize(peer), nets) ==>
                  || (exists k :: 0 <= k < |hops| && hops[k] == client && !Trusted(client, nets) &&
                                  forall i :: k < i < |hops| ==> Trusted(hops[i], nets))
                  || ((forall i :: 0 <= i < |hops| ==> Trusted(hops[i], nets)) &&
                      client == if First(h.realIp).Some? && parse(Text.Trim(First(h.realIp).value)).Some?
                                then Normalize(parse(Text.Trim(First(h.realIp).value)).value)
                                else Normalize(peer)))
  {
    hide Trusted, Hops, IsMapped, ValidNets;
    var line := First(h.forwardedFor);
    if line.Some? {
      NoneMapped(line.value, parse);
      FoundAmong(Hops(line.value, parse), nets);
    }
  }

  lemma NoneMapped(forwarded: string, parse: Parser)
    ensures forall i :: 0 <= i < |Hops(forwarded, parse)| ==> !IsMapped(Hops(forwarded, parse)[i])
  {
    ReadableUnmapped(Pieces(forwarded), parse);
  }

  lemma {:induction false} ReadableUnmapped(pieces: seq<string>, parse: Parser)
    ensures forall i :: 0 <= i < |Readable(pieces, parse)| ==> !IsMapped(Readable(pieces, parse)[i])
  {
    if pieces != [] { ReadableUnmapped(pieces[1..], parse); }
  }

  /** The search finds the last hop that is not a trusted proxy, and fails only when all are. */
  lemma {:induction false} FoundAmong(hops: seq<Ip>, nets: seq<IpNet>)
    requires ValidNets(nets)
    ensures match RightmostUntrusted(hops, nets)
            case None => forall i :: 0 <= i < |hops| ==> Trusted(hops[i], nets)
            case Some(ip) =>
              exists k :: 0 <= k < |hops| && hops[k] == ip && !Trusted(ip, nets) &&
                          forall i :: k < i < |hops| ==> Trusted(hops[i], nets)
  {
    if RightmostUntrusted(hops, nets).Some? {
      var k := LastUntrusted(hops, nets);
    } else {
      AllTrusted(hops, nets);
    }
  }

  lemma {:induction false} LastUntrusted(hops: seq<Ip>, nets: seq<IpNet>) returns (k: nat)
    requires ValidNets(nets) && RightmostUntrusted(hops, nets).Some?
    ensures k < |hops| && hops[k] == RightmostUntrusted(hops, nets).value && !Trusted(hops[k], nets)
    ensures forall i :: k < i < |hops| ==> Trusted(hops[i], nets)
    decreases |hops|
  {
    hide Trusted, ValidNets;
    var n := |hops| - 1;
    if Trusted(hops[n], nets) { k := LastUntrusted(hops[..n], nets); } else { k := n; }
  }

  lemma {:induction false} AllTrusted(hops: seq<Ip>, nets: seq<IpNet>)
    requires ValidNets(nets) && RightmostUntrusted(hops, nets) == None
    ensures forall i :: 0 <= i < |hops| ==> Trusted(hops[i], nets)
    decreases |hops|
  {
    hide Trusted, ValidNets;
    if hops != [] { AllTrusted(hops[..|hops| - 1], nets); }
  }

  function Extended(c: char, ps: seq<string>): seq<string>
    requires ps != []
  {
    if c == ',' then [""] + ps else [[c] + ps[0]] + ps[1..]
  }

  lemma {:induction false} PiecesStep(c: char, s: string)
    ensures Pieces([c] + s) == Extended(c, Pieces(s))
  {
    assert ([c] + s)[1..] == s;
  }

  lemma ExtendedJoined(c: char, p: seq<string>, q: seq<string>)
    requires p != []
    ensures Extended(c, p + q) == Extended(c, p) + q
  {
    assert (p + q)[0] == p[0] && (p + q)[1..] == p[1..] + q;
  }

  lemma {:induction false} PiecesJoined(a: string, b: string)
    ensures Pieces(a + "," + b) == Pieces(a) + Pieces(b)
    decreases |a|
  {
    if a == "" {
      PiecesStep(',', b);
      assert a + "," + b == [','] + b;
    } else {
      hide Pieces, Extended;
      var c, rest := a[0], a[1..];
      PiecesJoined(rest, b);
      PiecesStep(c, rest + "," + b);
      PiecesStep(c, rest);
      ExtendedJoined(c, Pieces(rest), Pieces(b));
      assert [c] + rest == a && [c] + (rest + "," + b) == a + "," + b;
    }
  }

  lemma {:induction false} ReadableJoined(p: seq<string>, q: seq<string>, parse: Parser)
    ensures Readable(p + q, parse) == Readable(p, parse) + Readable(q, parse)
    decreases |p|
  {
    if p == [] {
      assert p + q == q;
    } else {
      assert (p + q)[0] == p[0] && (p + q)[1..] == p[1..] + q;
      ReadableJoined(p[1..], q, parse);
    }
  }

  lemma {:induction false} LeftIgnored(left: seq<Ip>, right: seq<Ip>, nets: seq<IpNet>)
    requires ValidNets(nets) && RightmostUntrusted(right, nets).Some?
    ensures RightmostUntrusted(left + right, nets) == RightmostUntrusted(right, nets)
    decreases |right|
  {
    hide Trusted, ValidNets;
    var all, n := left + right, |right| - 1;
    assert all[|all| - 1] == right[n] && all[..|all| - 1] == left + right[..n];
    if Trusted(right[n], nets) { LeftIgnored(left, right[..n], nets); }
  }

  lemma {:induction false} RightIgnored(left: seq<Ip>, right: seq<Ip>, nets: seq<IpNet>)
    requires ValidNets(nets) && RightmostUntrusted(right, nets) == None
    ensures RightmostUntrusted(left + right, nets) == RightmostUntrusted(left, nets)
    decreases |right|
  {
    hide Trusted, ValidNets;
    var all, n := left + right, |right| - 1;
    if right == [] {
      assert all == left;
    } else {
      assert all[|all| - 1] == right[n] && all[..|all| - 1] == left + right[..n];
      RightIgnored(left, right[..n], nets);
    }
  }

  lemma HopsJoined(a: string, b: string, parse: Parser)
    ensures Hops(a + "," + b, parse) == Hops(a, parse) + Hops(b, parse)
  {
    PiecesJoined(a, b);
    ReadableJoined(Pieces(a), Pieces(b), parse);
  }

  // ---------------------------------------------------------------- what a line says

  /** One entry of a forwarding line as written: a text, with white space around it. */
  datatype Entry = Entry(before: string, text: string, after: string)

  ghost predicate WellFormed(e: Entry) {
    Text.Blank(e.before) && Text.Tight(e.text) && Text.Blank(e.after) && ',' !in e.text
  }

  function Spelling(e: Entry): string { e.before + e.text + e.after }

  /** Entries with commas between them. */
  function Written(es: seq<Entry>): string
    requires es != []
  {
    if |es| == 1 then Spelling(es[0]) else Spelling(es[0]) + "," + Written(es[1..])
  }

  /** The address an entry names, if its text is one. */
  function Names(e: Entry, parse: Parser): Option<Ip> {
    if e.text == "" || parse(e.text) == None then None else Some(Normalize(parse(e.text).value))
  }

  function AllNamed(es: seq<Entry>, parse: Parser): seq<Ip> {
    if es == [] then []
    else if Names(es[0], parse) == None then AllNamed(es[1..], parse)
    else [Names(es[0], parse).value] + AllNamed(es[1..], parse)
  }

  lemma {:induction false} NoComma(s: string)
    requires ',' !in s
    ensures Pieces(s) == [s]
  {
    if s != "" {
      NoComma(s[1..]);
      assert [s[0]] + s[1..] == s;
    }
  }

  lemma {:induction false} OneEntry(e: Entry, parse: Parser)
    requires WellFormed(e)
    ensures Hops(Spelling(e), parse) == if Names(e, parse) == None then [] else [Names(e, parse).value]
  {
    var s := Spelling(e);
    Text.TrimOf(e.before, e.text, e.after);
    BlankHasNoComma(e.before);
    BlankHasNoComma(e.after);
    NoComma(s);
    hide Pieces, Text.Trim, Normalize;
    assert [s][1..] == [] && Readable([], parse) == [];
  }

  lemma BlankHasNoComma(s: string)
    requires Text.Blank(s)
    ensures ',' !in s
  {
  }

  /** A line is read as its entries: white space around a text does not matter, blank and unreadable texts are
      passed over, the others come in order. */
  lemma {:induction false} HopsOfLine(es: seq<Entry>, parse: Parser)
    requires es != [] && forall i :: 0 <= i < |es| ==> WellFormed(es[i])
    ensures Hops(Written(es), parse) == AllNamed(es, parse)
  {
    hide Hops, Spelling, Names, WellFormed;
    OneEntry(es[0], parse);
    if |es| == 1 {
      assert AllNamed(es[1..], parse) == [];
    } else {
      HopsOfLine(es[1..], parse);
      HopsJoined(Spelling(es[0]), Written(es[1..]), parse);
    }
  }

  /** And every line is of that form. */
  lemma {:induction false} LineOf(line: string) returns (es: seq<Entry>)
    ensures es != [] && (forall i :: 0 <= i < |es| ==> WellFormed(es[i])) && Written(es) == line
    decreases |line|
  {
    match SplitOnce(line, ',')
    case None =>
      NoSplitMeansAbsent(line, ',');
      var e := EntryOf(line);
      es := [e];
    case Some(parts) =>
      SplitShorter(line, ',');
      FirstPart(line, ',');
      var e := EntryOf(parts.0);
      var rest := LineOf(parts.1);
      hide WellFormed;
      es := [e] + rest;
      assert es[1..] == rest;
  }

  lemma {:induction false} EntryOf(text: string) returns (e: Entry)
    requires ',' !in text
    ensures WellFormed(e) && Spelling(e) == text
  {
    var a, b := Text.TrimSplits(text);
    e := Entry(a, Text.Trim(text), b);
    hide Text.Trim;
    assert forall i :: 0 <= i < |e.text| ==> e.text[i] == text[|a| + i];
  }

  /** The client in terms of what is written: behind a trusted peer, the last entry of the first line that
      names an untrusted address. */
  lemma {:induction false} ClientOfLine(peer: Ip, es: seq<Entry>, more: seq<Option<string>>, realIp: seq<Option<string>>,
                                        nets: seq<IpNet>, parse: Parser, k: nat)
    requires ValidNets(nets) && Trusted(Normalize(peer), nets)
    requires (forall i :: 0 <= i < |es| ==> WellFormed(es[i])) && k < |es|
    requires Names(es[k], parse).Some? && !Trusted(Names(es[k], parse).value, nets)
    requires forall i :: k < i < |es| && Names(es[i], parse).Some? ==> Trusted(Names(es[i], parse).value, nets)
    ensures ResolveClientIp(peer, Headers([Some(Written(es))] + more, realIp), nets, parse) == Names(es[k], parse).value
  {
    HopsOfLine(es, parse);
    hide Hops, Trusted, ValidNets, Written, Normalize, WellFormed, Names;
    LastNamed(es, k, nets, parse);
  }

  lemma {:induction false} LastNamed(es: seq<Entry>, k: nat, nets: seq<IpNet>, parse: Parser)
    requires ValidNets(nets) && k < |es| && Names(es[k], parse).Some? && !Trusted(Names(es[k], parse).value, nets)
    requires forall i :: k < i < |es| && Names(es[i], parse).Some? ==> Trusted(Names(es[i], parse).value, nets)
    ensures RightmostUntrusted(AllNamed(es, parse), nets) == Names(es[k], parse)
    decreases |es|
  {
    hide Trusted, ValidNets, Names;
    var first := if Names(es[0], parse).Some? then [Names(es[0], parse).value] else [];
    var rest := AllNamed(es[1..], parse);
    assert AllNamed(es, parse) == first + rest;
    if k == 0 {
      NoneNamed(es[1..], nets, parse);
      RightIgnored(first, rest, nets);
      assert first[..0] == [];
    } else {
      LastNamed(es[1..], k - 1, nets, parse);
      LeftIgnored(first, rest, nets);
    }
  }

  lemma {:induction false} NoneNamed(es: seq<Entry>, nets: seq<IpNet>, parse: Parser)
    requires ValidNets(nets)
    requires forall i :: 0 <= i < |es| && Names(es[i], parse).Some? ==> Trusted(Names(es[i], parse).value, nets)
    ensures RightmostUntrusted(AllNamed(es, parse), nets) == None
    decreases |es|
  {
    hide Trusted, ValidNets, Names;
    if es != [] {
      var first := if Names(es[0], parse).Some? then [Names(es[0], parse).value] else [];
      var rest := AllNamed(es[1..], parse);
      assert AllNamed(es, parse) == first + rest && first[..0] == [];
      NoneNamed(es[1..], nets, parse);
      RightIgnored(first, rest, nets);
    }
  }

  /** If the line names none, or there is no readable line, the text of the first `X-Real-IP` line answers,
      white space around it aside, and failing that the peer. */
  lemma {:induction false} ClientWithoutLine(peer: Ip, es: seq<Entry>, forwardedFor: seq<Option<string>>, direct: Entry,
                                             moreReal: seq<Option<string>>, nets: seq<IpNet>, parse: Parser)
    requires ValidNets(nets) && Trusted(Normalize(peer), nets)
    requires forall i :: 0 <= i < |es| ==> WellFormed(es[i])
    requires First(forwardedFor) == if es == [] then None else Some(Written(es))
    requires forall i :: 0 <= i < |es| && Names(es[i], parse).Some? ==> Trusted(Names(es[i], parse).value, nets)
    requires Text.Blank(direct.before) && Text.Tight(direct.text) && Text.Blank(direct.after)
    ensures ResolveClientIp(peer, Headers(forwardedFor, [Some(Spelling(direct))] + moreReal), nets, parse)
         == if parse(direct.text).Some? then Normalize(parse(direct.text).value) else Normalize(peer)
    ensures ResolveClientIp(peer, Headers(forwardedFor, []), nets, parse) == Normalize(peer)
  {
    if es != [] { HopsOfLine(es, parse); }
    Text.TrimOf(direct.before, direct.text, direct.after);
    hide Hops, Trusted, ValidNets, Written, Normalize, WellFormed, Names, Text.Trim;
    NoneNamed(es, nets, parse);
  }

  // ---------------------------------------------------------------- who can forge what

  /** What a client puts in the line before the proxies append to it has no say: once the part the proxies
      wrote names an untrusted hop, the answer is the same whatever stands to its left, and whatever lines
      follow. */
  lemma {:induction false} ForgedHopsIgnored(peer: Ip, forged: string, written: string, more: seq<Option<string>>,
                                             realIp: seq<Option<string>>, nets: seq<IpNet>, parse: Parser)
    requires ValidNets(nets) && RightmostUntrusted(Hops(written, parse), nets).Some?
    ensures ResolveClientIp(peer, Headers([Some(forged + "," + written)] + more, realIp), nets, parse)
         == ResolveClientIp(peer, Headers([Some(written)], realIp), nets, parse)
  {
    HopsJoined(forged, written, parse);
    LeftIgnored(Hops(forged, parse), Hops(written, parse), nets);
  }

  /** Nor do entries to its right that are trusted proxies, blank or unreadable. */
  lemma {:induction false} ProxyHopsIgnored(peer: Ip, written: string, proxies: string, more: seq<Option<string>>,
                                            realIp: seq<Option<string>>, nets: seq<IpNet>, parse: Parser)
    requires ValidNets(nets)
    requires forall i :: 0 <= i < |Hops(proxies, parse)| ==> Trusted(Hops(proxies, parse)[i], nets)
    ensures ResolveClientIp(peer, Headers([Some(written + "," + proxies)] + more, realIp), nets, parse)
         == ResolveClientIp(peer, Headers([Some(written)], realIp), nets, parse)
  {
    HopsJoined(written, proxies, parse);
    FoundAmong(Hops(proxies, parse), nets);
    RightIgnored(Hops(written, parse), Hops(proxies, parse), nets);
  }

  function FirstLine(lines: seq<Option<string>>): seq<Option<string>> { if lines == [] then [] else [lines[0]] }

  /** Only first lines count: whatever lines follow one, of either header, the answer is the same. */
  lemma {:induction false} LaterLinesIgnored(peer: Ip, h: Headers, moreForwarded: seq<Option<string>>, moreReal: seq<Option<string>>,
                                             nets: seq<IpNet>, parse: Parser)
    requires ValidNets(nets)
    requires (h.forwardedFor == [] ==> moreForwarded == []) && (h.realIp == [] ==> moreReal == [])
    ensures ResolveClientIp(peer, Headers(h.forwardedFor + moreForwarded, h.realIp + moreReal), nets, parse)
         == ResolveClientIp(peer, Headers(FirstLine(h.forwardedFor), FirstLine(h.realIp)), nets, parse)
  {
  }

  /** So a client that names any untrusted address on the first line is taken at its word. */
  lemma {:induction false} OwnLineRules(peer: Ip, forged: string, more: seq<Option<string>>, realIp: seq<Option<string>>,
                                        nets: seq<IpNet>, parse: Parser)
    requires ValidNets(nets) && Trusted(Normalize(peer), nets) && RightmostUntrusted(Hops(forged, parse), nets).Some?
    ensures ResolveClientIp(peer, Headers([Some(forged)] + more, realIp), nets, parse)
         == RightmostUntrusted(Hops(forged, parse), nets).value
  {
  }

  /** One connection, one proxy, two answers: behind a proxy that adds a line of its own, the same client is
      taken for whichever address it names; had the proxy appended to the client's line, for the one the
      proxy saw. */
  lemma {:induction false} TwoAnswers(nets: seq<IpNet>, parse: Parser)
    requires nets == [IpNet(V4, 7, 32)]
    requires parse("a") == Some(Ip(V4, 1)) && parse("b") == Some(Ip(V4, 2)) && parse("c") == Some(Ip(V4, 3))
    ensures ValidNets(nets)
    ensures ResolveClientIp(Ip(V4, 7), Headers([Some("a"), Some("c")], []), nets, parse) == Ip(V4, 1)
    ensures ResolveClientIp(Ip(V4, 7), Headers([Some("b"), Some("c")], []), nets, parse) == Ip(V4, 2)
    ensures ResolveClientIp(Ip(V4, 7), Headers([Some("a" + "," + " c")], []), nets, parse) == Ip(V4, 3)
    ensures ResolveClientIp(Ip(V4, 7), Headers([Some("b" + "," + " c")], []), nets, parse) == Ip(V4, 3)
  {
    OnlySeven(nets);
    OneHop("", "a", Ip(V4, 1), parse);
    OneHop("", "b", Ip(V4, 2), parse);
    OneHop("", "c", Ip(V4, 3), parse);
    OneHop(" ", "c", Ip(V4, 3), parse);
    assert Normalize(Ip(V4, 7)) == Ip(V4, 7);
    assert "" + "a" == "a" && "" + "b" == "b" && "" + "c" == "c" && " " + "c" == " c";
    hide *;
    ApartOrAppended(Ip(V4, 7), "a", "c", " c", Ip(V4, 1), Ip(V4, 3), nets, parse);
    ApartOrAppended(Ip(V4, 7), "b", "c", " c", Ip(V4, 2), Ip(V4, 3), nets, parse);
  }

  lemma {:induction false} ApartOrAppended(peer: Ip, own: string, line: string, tail: string, a: Ip, c: Ip,
                                           nets: seq<IpNet>, parse: Parser)
    requires ValidNets(nets) && Trusted(Normalize(peer), nets) && !Trusted(a, nets) && !Trusted(c, nets)
    requires Hops(own, parse) == [a] && Hops(tail, parse) == [c]
    ensures ResolveClientIp(peer, Headers([Some(own), Some(line)], []), nets, parse) == a
    ensures ResolveClientIp(peer, Headers([Some(own + "," + tail)], []), nets, parse) == c
  {
    hide Hops, Trusted, ValidNets, Normalize;
    HopsJoined(own, tail, parse);
    assert RightmostUntrusted([a], nets) == Some(a);
    assert ([a] + [c])[1] == c;
  }

  lemma OnlySeven(nets: seq<IpNet>)
    requires nets == [IpNet(V4, 7, 32)]
    ensures ValidNets(nets) && Trusted(Ip(V4, 7), nets)
    ensures !Trusted(Ip(V4, 1), nets) && !Trusted(Ip(V4, 2), nets) && !Trusted(Ip(V4, 3), nets)
  {
    assert Contains(nets[0], Ip(V4, 7));
  }

  lemma {:induction false} OneHop(space: string, text: string, ip: Ip, parse: Parser)
    requires Text.Blank(space) && |text| == 1 && text[0] != ',' && !Text.IsWhitespace(text[0])
    requires parse(text) == Some(ip) && ip.family == V4
    ensures Hops(space + text, parse) == [ip]
  {
    assert space + text + "" == space + text;
    hide Hops, Text.IsWhitespace;
    OneEntry(Entry(space, text, ""), parse);
  }
}
