/** The caller's address as the request handler picks it: the entries of
    `X-Forwarded-For`, then the socket's peer address, and the first of
    them that looks like an IPv4 address (src/server.js:101-107). */
module ClientIp {

  import opened Http
  import opened Strings

  /** `\d` without the `u` flag: an ASCII digit. */
  predicate IsDigit(c: char) {
    '0' <= c <= '9'
  }

  /** One to three ASCII digits, as `\d{1,3}` matches. */
  predicate IsDigitGroup(g: string) {
    1 <= |g| <= 3 && forall i :: 0 <= i < |g| ==> IsDigit(g[i])
  }

  /** `/^\d{1,3}(?:\.\d{1,3}){3}$/`: four groups of one to three digits
      between dots. The groups are not checked to be at most 255. */
  predicate IsDottedQuad(s: string) {
    var groups := Split(s, '.');
    |groups| == 4 && forall i :: 0 <= i < 4 ==> IsDigitGroup(groups[i])
  }

  const MappedPrefix := "::ffff:"

  /** `/^::ffff:(\d{1,3}(?:\.\d{1,3}){3})$/`: an IPv4-mapped IPv6 address
      written with the lower-case prefix. */
  predicate IsMappedQuad(s: string) {
    |s| >= |MappedPrefix| && s[..|MappedPrefix|] == MappedPrefix && IsDottedQuad(s[|MappedPrefix|..])
  }

  /** The `find` callback on one list entry; `undefined` (a missing peer
      address) is tested as the text "undefined" and never matches. */
  predicate LooksIpv4(entry: Option<string>) {
    entry.Some? && (IsDottedQuad(entry.value) || IsMappedQuad(entry.value))
  }

  /** Join of four parts, unfolded. */
  lemma JoinFour(p: seq<string>, sep: char)
    requires |p| == 4
    ensures Join(p, sep) == p[0] + [sep] + p[1] + [sep] + p[2] + [sep] + p[3]
  {
    var q := p[1..][1..];
    assert q == [p[2], p[3]] && q[1..] == [p[3]];
    assert Join(q[1..], sep) == p[3];
    var j2 := Join(q, sep);
    assert j2 == p[2] + [sep] + p[3];
    var j1 := Join(p[1..], sep);
    assert j1 == p[1] + [sep] + j2;
    assert p[1] + [sep] + j2 == p[1] + [sep] + p[2] + [sep] + p[3];
    assert Join(p, sep) == p[0] + [sep] + j1;
    assert p[0] + [sep] + j1 == p[0] + [sep] + p[1] + [sep] + p[2] + [sep] + p[3];
  }

  /** Four digit groups joined with dots form a dotted quad. */
  lemma QuadOfGroups(a: string, b: string, c: string, d: string)
    requires IsDigitGroup(a) && IsDigitGroup(b) && IsDigitGroup(c) && IsDigitGroup(d)
    ensures IsDottedQuad(a + "." + b + "." + c + "." + d)
  {
    var groups := [a, b, c, d];
    JoinFour(groups, '.');
    forall i | 0 <= i < 4 ensures '.' !in groups[i] {
      assert IsDigitGroup(groups[i]);
      assert forall k :: 0 <= k < |groups[i]| ==> groups[i][k] != '.';
    }
    SplitJoin(groups, '.');
  }

  /** A dotted quad is made of digits and exactly three dots: between seven
      and fifteen characters. */
  lemma QuadShape(s: string)
    requires IsDottedQuad(s)
    ensures 7 <= |s| <= 15
    ensures forall i :: 0 <= i < |s| ==> IsDigit(s[i]) || s[i] == '.'
  {
    var g := Split(s, '.');
    JoinFour(g, '.');
    forall i | 0 <= i < |s| ensures IsDigit(s[i]) || s[i] == '.' {
      if s[i] != '.' {
        assert s[i] in s;
        assert s[i] in g[0] || s[i] in g[1] || s[i] in g[2] || s[i] in g[3];
      }
    }
  }

  /** The pattern accepts octets above 255. */
  lemma AcceptsLargeGroups()
    ensures IsDottedQuad("999.999.999.999")
  {
    QuadOfGroups("999", "999", "999", "999");
    assert "999" + "." + "999" + "." + "999" + "." + "999" == "999.999.999.999";
  }

  /** `ipList`: the trimmed pieces of the header in order, or nothing when
      the header is absent, then the peer address. */
  function Candidates(forwarded: Option<string>, peer: Option<string>): (list: seq<Option<string>>)
    ensures |list| >= 1 && list[|list| - 1] == peer
    ensures forwarded.None? ==> list == [peer]
    ensures forwarded.Some? ==>
      var pieces := Split(forwarded.value, ',');
      |list| == |pieces| + 1 && forall i :: 0 <= i < |pieces| ==> list[i] == Some(Trim(pieces[i]))
    ensures forall i :: 0 <= i < |list| - 1 ==>
      list[i].Some? && ',' !in list[i].value
      && (list[i].value == [] || (!IsSpace(list[i].value[0]) && !IsSpace(list[i].value[|list[i].value| - 1])))
  {
    match forwarded
    case None => [peer]
    case Some(header) =>
      var pieces := Split(header, ',');
      seq(|pieces|, i requires 0 <= i < |pieces| => Some(Trim(pieces[i]))) + [peer]
  }

  /** The position of the first candidate either pattern accepts, or the
      length of the list when none does: where `find` stops (src/server.js:103-106). */
  function FirstIpv4(list: seq<Option<string>>): (i: nat)
    ensures i <= |list|
    ensures i < |list| ==> LooksIpv4(list[i])
    ensures forall j :: 0 <= j < i ==> !LooksIpv4(list[j])
    decreases |list|
  {
    if list == [] then 0
    else if LooksIpv4(list[0]) then 0
    else 1 + FirstIpv4(list[1..])
  }

  /** The first IPv4-looking candidate, else the first candidate if it is
      present and non-empty, else the empty string (src/server.js:107). */
  function SelectIp(forwarded: Option<string>, peer: Option<string>): (ip: string)
    ensures var list := Candidates(forwarded, peer);
      ip == "" || Some(ip) in list
  {
    var list := Candidates(forwarded, peer);
    var i := FirstIpv4(list);
    if i < |list| then list[i].value
    else if list[0].Some? then list[0].value
    else ""
  }

  /** The first entry that looks like IPv4 is the answer, unstripped. */
  lemma SelectsFirstIpv4(forwarded: Option<string>, peer: Option<string>, i: nat)
    requires var list := Candidates(forwarded, peer);
      i < |list| && LooksIpv4(list[i]) && forall j :: 0 <= j < i ==> !LooksIpv4(list[j])
    ensures SelectIp(forwarded, peer) == Candidates(forwarded, peer)[i].value
  {
    var list := Candidates(forwarded, peer);
    assert FirstIpv4(list) == i;
  }

  /** When no entry looks like IPv4 the first entry is the answer, or the
      empty text when that entry is `undefined`. */
  lemma FallsBackToFirst(forwarded: Option<string>, peer: Option<string>)
    requires var list := Candidates(forwarded, peer);
      forall i :: 0 <= i < |list| ==> !LooksIpv4(list[i])
    ensures var first := Candidates(forwarded, peer)[0];
      SelectIp(forwarded, peer) == if first.Some? then first.value else ""
  {
  }

  /** Without the header the peer address is what is reported, whether or
      not it looks like IPv4; a missing peer address gives the empty text. */
  lemma NoHeaderUsesPeer(peer: Option<string>)
    ensures SelectIp(None, peer) == if peer.Some? then peer.value else ""
  {
  }

  /** Any IPv4-looking header entry wins over the peer address: the header
      is trusted as the client sent it. */
  lemma HeaderEntryWins(forwarded: string, peer: Option<string>, k: nat)
    requires k < |Split(forwarded, ',')| && LooksIpv4(Some(Trim(Split(forwarded, ',')[k])))
    ensures SelectIp(Some(forwarded), peer) in Trimmed(Split(forwarded, ','))
  {
    var list := Candidates(Some(forwarded), peer);
    var i := FirstIpv4(list);
    assert LooksIpv4(list[k]);
    assert i <= k;
    assert SelectIp(Some(forwarded), peer) == list[i].value;
    assert list[i].value == Trimmed(Split(forwarded, ','))[i];
  }

  /** The trimmed pieces of a header. */
  function Trimmed(pieces: seq<string>): (r: seq<string>)
    ensures |r| == |pieces| && forall i :: 0 <= i < |pieces| ==> r[i] == Trim(pieces[i])
  {
    seq(|pieces|, i requires 0 <= i < |pieces| => Trim(pieces[i]))
  }

  /** The pieces of the header `203.0.113.5, 70.41.3.18`. */
  lemma ForwardedPieces()
    ensures Split("203.0.113.5, 70.41.3.18", ',') == ["203.0.113.5", " 70.41.3.18"]
  {
    var first, second := "203.0.113.5", " 70.41.3.18";
    var header := "203.0.113.5, 70.41.3.18";
    assert [first, second][1..] == [second];
    var joined := first + [','] + second;
    assert forall k :: 0 <= k < |header| ==> joined[k] == header[k];
    assert joined == header;
    SplitJoin([first, second], ',');
  }

  lemma FirstHopIsQuad()
    ensures IsDottedQuad("203.0.113.5")
  {
    QuadOfGroups("203", "0", "113", "5");
    assert "203" + "." + "0" + "." + "113" + "." + "5" == "203.0.113.5";
  }

  /** The first hop of that chain, trimmed, looks like IPv4. */
  lemma ForwardedFirstHop(forwarded: string)
    requires forwarded == "203.0.113.5, 70.41.3.18"
    ensures Trim(Split(forwarded, ',')[0]) == "203.0.113.5"
    ensures LooksIpv4(Some("203.0.113.5"))
  {
    ForwardedPieces();
    FirstHopIsQuad();
    FirstHopTrimmed("203.0.113.5");
  }

  lemma FirstHopTrimmed(first: string)
    requires first == "203.0.113.5"
    ensures Trim(first) == first
  {
    assert !IsSpace(first[0]) && !IsSpace(first[|first| - 1]);
  }

  /** A proxy chain `203.0.113.5, 70.41.3.18` seen from `::1` reports the
      first hop. */
  lemma ForwardedExample(forwarded: string, peer: string)
    requires forwarded == "203.0.113.5, 70.41.3.18" && peer == "::1"
    ensures SelectIp(Some(forwarded), Some(peer)) == "203.0.113.5"
  {
    ForwardedFirstHop(forwarded);
    FirstPieceWins(forwarded, Some(peer));
  }

  /** When the first header entry looks like IPv4 it is the answer. */
  lemma FirstPieceWins(forwarded: string, peer: Option<string>)
    requires LooksIpv4(Some(Trim(Split(forwarded, ',')[0])))
    ensures SelectIp(Some(forwarded), peer) == Trim(Split(forwarded, ',')[0])
  {
    var list := Candidates(Some(forwarded), peer);
    assert list[0] == Some(Trim(Split(forwarded, ',')[0]));
    assert FirstIpv4(list) == 0;
  }

  /** A direct IPv4 client without a proxy is reported as itself. */
  lemma PeerExample()
    ensures SelectIp(None, Some("198.51.100.7")) == "198.51.100.7"
  {
  }
}
