/** Percent-encoding of section 2.1 of RFC 3986: an octet is written as `%`
    followed by two hexadecimal digits. `Unquote` is the decoder the callback
    listener applies to every parameter value (`urllib2.unquote`), `Quote` an
    encoder that it inverts. A character stands for the octet whose code it
    has; characters above 255 only ever pass through undecoded. */
module Percent {
  import opened Strings

  predicate IsHexDigit(c: char)
  {
    '0' <= c <= '9' || 'a' <= c <= 'f' || 'A' <= c <= 'F'
  }

  function HexValue(c: char): (v: nat)
    requires IsHexDigit(c)
    ensures v < 16
  {
    if '0' <= c <= '9' then c as nat - '0' as nat
    else if 'a' <= c <= 'f' then c as nat - 'a' as nat + 10
    else c as nat - 'A' as nat + 10
  }

  /** The upper-case digit for `v`, the one an encoder writes. */
  function HexDigit(v: nat): (c: char)
    requires v < 16
    ensures IsHexDigit(c) && HexValue(c) == v
    ensures c != '%'
  {
    if v < 10 then ('0' as nat + v) as char else ('A' as nat + v - 10) as char
  }

  /** The octet written as `%` `hi` `lo`. */
  function DecodeOctet(hi: char, lo: char): (c: char)
    requires IsHexDigit(hi) && IsHexDigit(lo)
    ensures c as nat < 256
  {
    (16 * HexValue(hi) + HexValue(lo)) as char
  }

  /** Whether `s` starts with a `%` followed by two hexadecimal digits. */
  predicate StartsWithEscape(s: string)
  {
    |s| >= 3 && s[0] == '%' && IsHexDigit(s[1]) && IsHexDigit(s[2])
  }

  /** `urllib2.unquote(s)`, read left to right: every `%HH` becomes its octet;
      any other character, a `%` without two hexadecimal digits after it
      included, is kept. `+` is kept too: it is `unquote_plus` that turns it
      into a space. Decoded text is not scanned again, so `%2541` gives `%41`. */
  function Unquote(s: string): (r: string)
    ensures |r| <= |s|
    ensures '%' !in s ==> r == s
    decreases |s|
  {
    if s == [] then []
    else if StartsWithEscape(s) then [DecodeOctet(s[1], s[2])] + Unquote(s[3..])
    else
      assert '%' !in s ==> s == [s[0]] + s[1..];
      [s[0]] + Unquote(s[1..])
  }

  /** Text made of octets, the only text an encoder can write. */
  predicate IsOctets(s: string)
  {
    forall i :: 0 <= i < |s| ==> s[i] as nat < 256
  }

  /** The unreserved characters of section 2.3 of RFC 3986, never encoded. */
  predicate IsUnreserved(c: char)
  {
    'a' <= c <= 'z' || 'A' <= c <= 'Z' || '0' <= c <= '9' || c == '-' || c == '.' || c == '_' || c == '~'
  }

  function QuoteOctet(c: char): string
    requires c as nat < 256
  {
    if IsUnreserved(c) then [c] else ['%', HexDigit(c as nat / 16), HexDigit(c as nat % 16)]
  }

  /** Encodes every octet that is not unreserved as `%HH`. The result holds
      no character that the query syntax gives a meaning to. */
  function Quote(s: string): (r: string)
    requires IsOctets(s)
    ensures forall i :: 0 <= i < |r| ==> IsUnreserved(r[i]) || r[i] == '%' || IsHexDigit(r[i])
  {
    if s == [] then [] else QuoteOctet(s[0]) + Quote(s[1..])
  }

  /** An encoded value carries none of the characters that delimit a query. */
  lemma QuoteHasNoDelimiters(s: string)
    requires IsOctets(s)
    ensures '&' !in Quote(s) && '=' !in Quote(s) && '?' !in Quote(s) && '+' !in Quote(s)
  {
    var r := Quote(s);
    forall i | 0 <= i < |r|
      ensures r[i] != '&' && r[i] != '=' && r[i] != '?' && r[i] != '+'
    {
    }
  }

  /** Decoding recovers exactly what was encoded. */
  lemma {:induction false} UnquoteQuote(s: string)
    requires IsOctets(s)
    ensures Unquote(Quote(s)) == s
  {
    if s != [] {
      var c := s[0];
      var rest := Quote(s[1..]);
      UnquoteQuote(s[1..]);
      var q := QuoteOctet(c) + rest;
      assert Quote(s) == q;
      if IsUnreserved(c) {
        assert q[0] == c && q[0] != '%';
        assert q[1..] == rest;
      } else {
        assert StartsWithEscape(q);
        assert q[3..] == rest;
        assert DecodeOctet(q[1], q[2]) == c;
      }
      assert [c] + s[1..] == s;
    }
  }

  /** Decoding escape-free text leaves it in front of the rest. */
  lemma {:induction false} UnquoteLiteralPrefix(a: string, u: string)
    requires '%' !in a
    ensures Unquote(a + u) == a + Unquote(u)
  {
    if a != [] {
      var s := a + u;
      assert s[0] == a[0] && !StartsWithEscape(s);
      assert s[1..] == a[1..] + u;
      UnquoteLiteralPrefix(a[1..], u);
      assert [a[0]] + (a[1..] + Unquote(u)) == a + Unquote(u);
    } else {
      assert a + u == u;
    }
  }

  /** One piece after a `%`: it decodes to an octet when it starts with two
      hexadecimal digits, and otherwise the `%` is put back in front. */
  predicate StartsWithHexPair(s: string)
  {
    |s| >= 2 && IsHexDigit(s[0]) && IsHexDigit(s[1])
  }

  function DecodePiece(piece: string): string
  {
    if StartsWithHexPair(piece)
    then [DecodeOctet(piece[0], piece[1])] + piece[2..]
    else ['%'] + piece
  }

  function DecodePieces(pieces: seq<string>): string
  {
    if pieces == [] then [] else DecodePiece(pieces[0]) + DecodePieces(pieces[1..])
  }

  /** The library's own formulation of the same decoding: split the text on
      `%`, keep the first piece, and decode each later piece on its own. */
  function UnquoteBySplit(s: string): string
  {
    var pieces := Split(s, '%');
    pieces[0] + DecodePieces(pieces[1..])
  }

  /** The left-to-right scan and the split formulation agree on every text. */
  lemma {:induction false} UnquoteAgreesWithSplit(s: string)
    ensures Unquote(s) == UnquoteBySplit(s)
    decreases |s|, 0
  {
    var i := Find(s, '%');
    if i < 0 {
      assert Split(s, '%') == [s];
      assert s + [] == s;
    } else {
      var a, t := s[..i], s[i + 1..];
      var u := ['%'] + t;
      assert s == a + u;
      assert a + ['%'] + t == a + u;
      SplitAtSeparator(a, t, '%');
      assert Split(s, '%')[1..] == Split(t, '%');
      UnquoteLiteralPrefix(a, u);
      UnquoteAfterPercent(t);
    }
  }

  /** What follows a `%` decodes as the pieces of the split formulation do. */
  lemma {:induction false} UnquoteAfterPercent(t: string)
    ensures Unquote(['%'] + t) == DecodePieces(Split(t, '%'))
    decreases |t|, 1
  {
    if StartsWithEscape(['%'] + t) {
      UnquoteAgreesWithSplit(t[2..]);
      EscapeUnfolds(t);
      EscapePieces(t);
    } else {
      UnquoteAgreesWithSplit(t);
      LiteralPercent(t);
      LiteralPiece(t);
    }
  }

  /** A `%` without two hexadecimal digits after it is kept by the scan. */
  lemma LiteralPercent(t: string)
    requires !StartsWithEscape(['%'] + t)
    ensures Unquote(['%'] + t) == ['%'] + Unquote(t)
  {
    var u := ['%'] + t;
    assert u[1..] == t;
  }

  /** ... and by the split formulation. */
  lemma LiteralPiece(t: string)
    requires !StartsWithHexPair(t)
    ensures DecodePieces(Split(t, '%')) == ['%'] + UnquoteBySplit(t)
  {
    var pieces := Split(t, '%');
    UnescapedPiece(pieces[0], t);
    var p, d := pieces[0], DecodePieces(pieces[1..]);
    assert DecodePieces(pieces) == DecodePiece(p) + d;
    assert DecodePiece(p) == ['%'] + p;
    assert ['%'] + (p + d) == (['%'] + p) + d;
  }

  /** A prefix of text that does not start with two hexadecimal digits does not either. */
  lemma UnescapedPiece(p0: string, t: string)
    requires p0 <= t
    requires !StartsWithHexPair(t)
    ensures !StartsWithHexPair(p0)
  {
    assert |p0| >= 2 ==> p0[0] == t[0] && p0[1] == t[1];
  }

  lemma EscapeUnfolds(t: string)
    requires StartsWithEscape(['%'] + t)
    ensures Unquote(['%'] + t) == [DecodeOctet(t[0], t[1])] + Unquote(t[2..])
  {
    var u := ['%'] + t;
    assert u[1] == t[0] && u[2] == t[1];
    assert u[3..] == t[2..];
  }

  lemma EscapePieces(t: string)
    requires StartsWithHexPair(t)
    ensures DecodePieces(Split(t, '%')) == [DecodeOctet(t[0], t[1])] + UnquoteBySplit(t[2..])
  {
    var t', h := t[2..], t[..2];
    assert t == h + t';
    SplitPrefix(h, t', '%');
    var later := Split(t', '%');
    DecodeEscapedPiece(h + later[0], later, h);
  }

  /** A first piece that starts with two hexadecimal digits decodes to an octet. */
  lemma DecodeEscapedPiece(p0: string, later: seq<string>, h: string)
    requires |h| == 2 && StartsWithHexPair(h) && |later| >= 1 && p0 == h + later[0]
    ensures DecodePieces([p0] + later[1..]) == [DecodeOctet(h[0], h[1])] + (later[0] + DecodePieces(later[1..]))
  {
    var pieces := [p0] + later[1..];
    assert p0[0] == h[0] && p0[1] == h[1] && p0[2..] == later[0];
    assert pieces[0] == p0 && pieces[1..] == later[1..];
  }
}
