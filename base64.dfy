/** The base 64 encoding of section 4 of RFC 4648, as `base64.b64decode`
    applies it to a data URI's payload. The decoder accepts canonical text:
    groups of four alphabet characters, the last group possibly ending in
    one or two `=` pad characters. Like CPython's decoder it ignores the
    unused low bits of the character before the padding.

    The codec works in two layers: characters are first mapped to symbols
    (a 6-bit digit or the pad), and groups of four symbols carry three
    bytes. */
module Base64 {
  import opened Wrappers

  type byte = bv8

  /** A 6-bit value, the payload of one base 64 character. */
  type Sextet = x: bv8 | x < 64

  datatype Symbol = Digit(v: Sextet) | Pad

  /** The RFC 4648 alphabet: A-Z, a-z, 0-9, '+', '/'. */
  function CharOf(v: Sextet): char
  {
    var n := v as int;
    if n < 26 then ('A' as int + n) as char
    else if n < 52 then ('a' as int + (n - 26)) as char
    else if n < 62 then ('0' as int + (n - 52)) as char
    else if n == 62 then '+'
    else '/'
  }

  function ValueOf(c: char): Option<Sextet>
  {
    if 'A' <= c <= 'Z' then Some((c as int - 'A' as int) as bv8)
    else if 'a' <= c <= 'z' then Some((c as int - 'a' as int + 26) as bv8)
    else if '0' <= c <= '9' then Some((c as int - '0' as int + 52) as bv8)
    else if c == '+' then Some(62)
    else if c == '/' then Some(63)
    else None
  }

  function CharOfSymbol(x: Symbol): char
  {
    match x
    case Digit(v) => CharOf(v)
    case Pad => '='
  }

  function SymbolOf(c: char): Option<Symbol>
  {
    if c == '=' then Some(Pad)
    else match ValueOf(c)
      case Some(v) => Some(Digit(v))
      case None => None
  }

  lemma ValueOfCharOf(v: Sextet)
    ensures ValueOf(CharOf(v)) == Some(v)
  {
    var n := v as int;
    assert 0 <= n < 64;
    if n < 26 {
      assert 'A' <= CharOf(v) <= 'Z' && CharOf(v) as int - 'A' as int == n;
    } else if n < 52 {
      assert 'a' <= CharOf(v) <= 'z' && CharOf(v) as int - 'a' as int + 26 == n;
    } else if n < 62 {
      assert '0' <= CharOf(v) <= '9' && CharOf(v) as int - '0' as int + 52 == n;
    }
  }

  lemma SymbolOfCharOf(x: Symbol)
    ensures SymbolOf(CharOfSymbol(x)) == Some(x)
  {
    if x.Digit? {
      ValueOfCharOf(x.v);
    }
  }

  /** Text as symbols; `None` when a character is outside the alphabet. */
  function ParseSymbols(s: string): (r: Option<seq<Symbol>>)
    ensures r.Some? ==> |r.value| == |s|
  {
    if forall i | 0 <= i < |s| :: SymbolOf(s[i]).Some?
    then Some(seq(|s|, i requires 0 <= i < |s| => SymbolOf(s[i]).value))
    else None
  }

  function Render(xs: seq<Symbol>): (s: string)
    ensures |s| == |xs|
  {
    seq(|xs|, i requires 0 <= i < |xs| => CharOfSymbol(xs[i]))
  }

  /** Reading back rendered symbols gives the same symbols. */
  lemma ParseRender(xs: seq<Symbol>)
    ensures ParseSymbols(Render(xs)) == Some(xs)
  {
    var s := Render(xs);
    forall i | 0 <= i < |s| ensures SymbolOf(s[i]) == Some(xs[i]) {
      SymbolOfCharOf(xs[i]);
    }
    var r := ParseSymbols(s);
    assert r.Some?;
    assert forall i | 0 <= i < |xs| :: r.value[i] == xs[i];
    assert r.value == xs;
  }

  /** The bit layout of one group: three bytes in four sextets. */
  function Hi(b0: byte): Sextet { b0 >> 2 }
  function Mid(b0: byte, b1: byte): Sextet { ((b0 & 3) << 4) | (b1 >> 4) }
  function Lo(b1: byte, b2: byte): Sextet { ((b1 & 15) << 2) | (b2 >> 6) }
  function Last(b2: byte): Sextet { b2 & 63 }

  function Byte0(v0: Sextet, v1: Sextet): byte { (v0 << 2) | (v1 >> 4) }
  function Byte1(v1: Sextet, v2: Sextet): byte { ((v1 & 15) << 4) | (v2 >> 2) }
  function Byte2(v2: Sextet, v3: Sextet): byte { ((v2 & 3) << 6) | v3 }

  lemma BytesOfSextets(b0: byte, b1: byte, b2: byte)
    ensures Byte0(Hi(b0), Mid(b0, b1)) == b0
    ensures Byte1(Mid(b0, b1), Lo(b1, b2)) == b1
    ensures Byte2(Lo(b1, b2), Last(b2)) == b2
  {
  }

  /** Bytes as symbols, three bytes to a group, the last group padded. */
  function Sextets(b: seq<byte>): (xs: seq<Symbol>)
    ensures |xs| % 4 == 0 && (|xs| == 0 <==> |b| == 0)
    decreases |b|
  {
    if |b| == 0 then []
    else if |b| == 1 then [Digit(Hi(b[0])), Digit(Mid(b[0], 0)), Pad, Pad]
    else if |b| == 2 then [Digit(Hi(b[0])), Digit(Mid(b[0], b[1])), Digit(Lo(b[1], 0)), Pad]
    else [Digit(Hi(b[0])), Digit(Mid(b[0], b[1])), Digit(Lo(b[1], b[2])), Digit(Last(b[2]))]
         + Sextets(b[3..])
  }

  /** One group of four symbols; `final` says whether it is the last group,
      the only one that may carry padding. */
  function DecodeGroup(x0: Symbol, x1: Symbol, x2: Symbol, x3: Symbol, final: bool): (r: Option<seq<byte>>)
    ensures r.Some? ==> 1 <= |r.value| <= 3
    ensures r.Some? && |r.value| < 3 ==> final
  {
    if x0.Pad? || x1.Pad? then None
    else if x2.Digit? && x3.Digit? then
      Some([Byte0(x0.v, x1.v), Byte1(x1.v, x2.v), Byte2(x2.v, x3.v)])
    else if final && x2.Digit? && x3.Pad? then
      Some([Byte0(x0.v, x1.v), Byte1(x1.v, x2.v)])
    else if final && x2.Pad? && x3.Pad? then
      Some([Byte0(x0.v, x1.v)])
    else None
  }

  function DecodeSymbols(xs: seq<Symbol>): (r: Option<seq<byte>>)
    ensures r.Some? ==> |xs| % 4 == 0
    ensures r.Some? ==> 4 * |r.value| <= 3 * |xs| <= 4 * |r.value| + 8
    decreases |xs|
  {
    if |xs| == 0 then Some([])
    else if |xs| < 4 then None
    else
      match DecodeGroup(xs[0], xs[1], xs[2], xs[3], |xs| == 4)
      case None => None
      case Some(g) =>
        if |xs| == 4 then Some(g)
        else
          match DecodeSymbols(xs[4..])
          case None => None
          case Some(rest) => Some(g + rest)
  }

  /** Encodes bytes as canonical, padded base 64 text. */
  function Encode(b: seq<byte>): string
  {
    Render(Sextets(b))
  }

  /** Decodes canonical base 64 text; `None` where `b64decode` raises. Every
      four characters carry three bytes, less one or two for the padding of
      the last group. */
  function Decode(s: string): (r: Option<seq<byte>>)
    ensures r.Some? ==> |s| % 4 == 0
    ensures r.Some? ==> 4 * |r.value| <= 3 * |s| <= 4 * |r.value| + 8
  {
    match ParseSymbols(s)
    case None => None
    case Some(xs) => DecodeSymbols(xs)
  }

  lemma DecodeFullGroup(b0: byte, b1: byte, b2: byte, final: bool)
    ensures DecodeGroup(Digit(Hi(b0)), Digit(Mid(b0, b1)), Digit(Lo(b1, b2)), Digit(Last(b2)), final)
            == Some([b0, b1, b2])
  {
    BytesOfSextets(b0, b1, b2);
  }

  lemma DecodeSymbolsCons(g: seq<Symbol>, tail: seq<Symbol>, x: seq<byte>, y: seq<byte>)
    requires |g| == 4 && |tail| > 0
    requires DecodeGroup(g[0], g[1], g[2], g[3], false) == Some(x)
    requires DecodeSymbols(tail) == Some(y)
    ensures DecodeSymbols(g + tail) == Some(x + y)
  {
    var xs := g + tail;
    assert xs[..4] == g && xs[4..] == tail;
  }

  lemma SplitHead(b: seq<byte>)
    requires |b| >= 3
    ensures b == [b[0], b[1], b[2]] + b[3..]
  {
  }

  lemma DecodeSymbolsStep(b: seq<byte>)
    requires |b| > 3 && DecodeSymbols(Sextets(b[3..])) == Some(b[3..])
    ensures DecodeSymbols(Sextets(b)) == Some(b)
  {
    SplitHead(b);
    var g := [Digit(Hi(b[0])), Digit(Mid(b[0], b[1])), Digit(Lo(b[1], b[2])), Digit(Last(b[2]))];
    var tail := Sextets(b[3..]);
    assert Sextets(b) == g + tail;
    DecodeFullGroup(b[0], b[1], b[2], false);
    DecodeSymbolsCons(g, tail, [b[0], b[1], b[2]], b[3..]);
  }

  /** The symbols of some bytes decode back to those bytes. */
  lemma {:induction false} DecodeSextets(b: seq<byte>)
    ensures DecodeSymbols(Sextets(b)) == Some(b)
    decreases |b|
  {
    if |b| == 1 {
      BytesOfSextets(b[0], 0, 0);
      assert b == [b[0]];
    } else if |b| == 2 {
      BytesOfSextets(b[0], b[1], 0);
      assert b == [b[0], b[1]];
    } else if |b| == 3 {
      BytesOfSextets(b[0], b[1], b[2]);
      assert b == [b[0], b[1], b[2]];
    } else if |b| > 3 {
      DecodeSextets(b[3..]);
      DecodeSymbolsStep(b);
    }
  }

  /** Decoding what `Encode` produced gives back the original bytes. */
  lemma DecodeEncode(b: seq<byte>)
    ensures Decode(Encode(b)) == Some(b)
  {
    ParseRender(Sextets(b));
    DecodeSextets(b);
  }
}
