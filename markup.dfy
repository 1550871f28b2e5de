/** The body of a successful API answer: every character of the caller's
    address in its own `<i>` element, so that the page can animate the
    characters one by one. */
module Markup {

  import opened Http

  const Open := "<i>"
  const Close := "</i>"

  /** One character in its wrapper: `<i>c</i>`, eight characters long. */
  function Cell(c: char): (cell: string)
    ensures |cell| == 8 && cell[3] == c
    ensures cell[..3] == Open && cell[4..] == Close
  {
    Open + [c] + Close
  }

  /** The address with each character in its own cell, in order
      (src/server.js:84). */
  function WrapChars(ip: string): (html: string)
    ensures |html| == 8 * |ip|
    ensures forall i :: 0 <= i < |ip| ==> html[8 * i..8 * i + 8] == Cell(ip[i])
    decreases |ip|
  {
    if ip == [] then []
    else
      var rest := WrapChars(ip[1..]);
      var html := Cell(ip[0]) + rest;
      assert forall i :: 1 <= i < |ip| ==> html[8 * i..8 * i + 8] == rest[8 * (i - 1)..8 * (i - 1) + 8];
      html
  }

  /** The reading the page gives to such a body: the characters of the
      consecutive `<i>` cells, or None when the text is not made of cells. */
  function UnwrapChars(html: string): (ip: Option<string>)
    ensures ip.Some? ==> |html| == 8 * |ip.value|
    decreases |html|
  {
    if html == [] then Some([])
    else if |html| >= 8 && html[..3] == Open && html[4..8] == Close then
      match UnwrapChars(html[8..])
      case Some(rest) => Some([html[3]] + rest)
      case None => None
    else None
  }

  /** Reading back a wrapped address gives the address: the page shows
      exactly the characters of the selected IP, in order. */
  lemma {:induction false} UnwrapWrap(ip: string)
    ensures UnwrapChars(WrapChars(ip)) == Some(ip)
    decreases |ip|
  {
    if ip != [] {
      var html := WrapChars(ip);
      UnwrapWrap(ip[1..]);
      assert html[8..] == WrapChars(ip[1..]);
      assert html[..3] == Open && html[4..8] == Close && html[3] == ip[0];
      assert [ip[0]] + ip[1..] == ip;
    }
  }

  /** Every body the page can read back is the wrapping of what it reads:
      the two directions of the round trip together make `UnwrapChars` the
      exact inverse of `WrapChars`. */
  lemma {:induction false} WrapUnwrap(html: string)
    requires UnwrapChars(html).Some?
    ensures WrapChars(UnwrapChars(html).value) == html
    decreases |html|
  {
    if html != [] {
      var ip := UnwrapChars(html).value;
      var rest := UnwrapChars(html[8..]).value;
      WrapUnwrap(html[8..]);
      assert ip == [html[3]] + rest;
      assert ip[1..] == rest;
      assert Cell(html[3]) == html[..8];
      assert html == html[..8] + html[8..];
    }
  }

  /** Distinct addresses give distinct bodies. */
  lemma WrapInjective(a: string, b: string)
    requires WrapChars(a) == WrapChars(b)
    ensures a == b
  {
    UnwrapWrap(a);
    UnwrapWrap(b);
  }

  /** Wrapping one more leading character adds one cell in front. */
  lemma WrapCons(c: char, s: string, cs: string)
    requires cs == [c] + s
    ensures WrapChars(cs) == Cell(c) + WrapChars(s)
  {
    assert cs[1..] == s;
  }

  /** Two more leading characters add their two cells in front. */
  lemma WrapCons2(a: char, b: char, s: string, cs: string)
    requires cs == [a, b] + s
    ensures WrapChars(cs) == Cell(a) + (Cell(b) + WrapChars(s))
  {
    WrapCons(a, [b] + s, cs);
    WrapCons(b, s, [b] + s);
  }

  /** The body for the address `1.2.3.4`: the cells of its characters, in
      the order of the address. */
  lemma WrapExample(ip: string)
    requires ip == "1.2.3.4"
    ensures WrapChars(ip)
      == Cell('1') + (Cell('.') + (Cell('2') + (Cell('.') + (Cell('3') + (Cell('.') + Cell('4'))))))
  {
    var t3 := "4";
    var t2 := ['3', '.'] + t3;
    var t1 := ['2', '.'] + t2;
    assert ip == ['1', '.'] + t1;
    WrapCons('4', [], t3);
    WrapCons2('3', '.', t3, t2);
    WrapCons2('2', '.', t2, t1);
    WrapCons2('1', '.', t1, ip);
    assert Cell('4') + [] == Cell('4');
  }
}
