/**
 * `urllib.parse.quote` with its defaults (`safe="/"`, UTF-8): every character outside the
 * unreserved set of section 2.3 of RFC 3986 and outside `safe` is written as the
 * percent-encoded octets of its UTF-8 form (section 2.1 of RFC 3986, upper-case hex).
 * `Unquote` is the matching decoder, used to state that encoding loses nothing.
 */
module Percent {
  import opened Wrappers
  import opened Seqs
  import opened PurePaths

  type Byte = x: int | 0 <= x < 256

  /** The characters `quote` always leaves alone: letters, digits and "_.-~". */
  predicate IsUnreserved(c: char)
  {
    ('A' <= c <= 'Z') || ('a' <= c <= 'z') || ('0' <= c <= '9') || c == '_' || c == '.' || c == '-' || c == '~'
  }

  /** The unreserved characters plus the default `safe` character '/'. */
  predicate IsSafe(c: char)
  {
    IsUnreserved(c) || c == '/'
  }

  // ---------------------------------------------------------------------------------
  // UTF-8 (section 3 of RFC 3629)
  // ---------------------------------------------------------------------------------

  /** The UTF-8 octets of one Unicode scalar value. */
  function Utf8(c: char): (r: seq<Byte>)
    ensures 1 <= |r| <= 4
    ensures |r| == 1 <==> c as int < 0x80
  {
    var n := c as int;
    if n < 0x80 then [n]
    else if n < 0x800 then [0xC0 + n / 64, 0x80 + n % 64]
    else if n < 0x10000 then [0xE0 + n / 4096, 0x80 + n / 64 % 64, 0x80 + n % 64]
    else [0xF0 + n / 262144, 0x80 + n / 4096 % 64, 0x80 + n / 64 % 64, 0x80 + n % 64]
  }

  function Utf8Encode(s: string): seq<Byte>
  {
    if s == [] then [] else Utf8(s[0]) + Utf8Encode(s[1..])
  }

  predicate IsContinuation(b: Byte)
  {
    0x80 <= b < 0xC0
  }

  /** The first scalar value of a UTF-8 octet sequence, with the number of octets it used. */
  function DecodeFirst(bs: seq<Byte>): (r: Option<(char, nat)>)
    ensures r.Some? ==> 1 <= r.value.1 <= |bs|
  {
    if |bs| == 0 then None
    else
      var b0: int := bs[0];
      if b0 < 0x80 then Some((b0 as char, 1))
      else if 0xC0 <= b0 < 0xE0 && |bs| >= 2 && IsContinuation(bs[1]) then
        var n := (b0 - 0xC0) * 64 + Low6(bs[1]);
        if 0x80 <= n then Some((n as char, 2)) else None
      else if 0xE0 <= b0 < 0xF0 && |bs| >= 3 && IsContinuation(bs[1]) && IsContinuation(bs[2]) then
        var n := (b0 - 0xE0) * 4096 + Low6(bs[1]) * 64 + Low6(bs[2]);
        if 0x800 <= n && !(0xD800 <= n < 0xE000) then Some((n as char, 3)) else None
      else if 0xF0 <= b0 < 0xF8 && |bs| >= 4 && IsContinuation(bs[1]) && IsContinuation(bs[2])
              && IsContinuation(bs[3]) then
        var n := (b0 - 0xF0) * 262144 + Low6(bs[1]) * 4096 + Low6(bs[2]) * 64 + Low6(bs[3]);
        if 0x10000 <= n < 0x110000 then Some((n as char, 4)) else None
      else None
  }

  /** The six payload bits of a continuation octet. */
  function Low6(b: Byte): int
  {
    b as int - 0x80
  }

  /** Decodes a whole octet sequence; None when it is not well-formed UTF-8. */
  function Utf8Decode(bs: seq<Byte>): Option<string>
    decreases |bs|
  {
    if bs == [] then Some([])
    else match DecodeFirst(bs)
      case None => None
      case Some((c, k)) =>
        match Utf8Decode(bs[k..])
        case None => None
        case Some(rest) => Some([c] + rest)
  }

  lemma DivChain(n: int)
    requires 0 <= n
    ensures n / 64 / 64 == n / 4096 && n / 4096 / 64 == n / 262144
    ensures n == n / 64 * 64 + n % 64
    ensures n / 64 == n / 4096 * 64 + n / 64 % 64
    ensures n / 4096 == n / 262144 * 64 + n / 4096 % 64
  {
    var q1 := n / 64;
    var q2 := q1 / 64;
    var q3 := q2 / 64;
    assert n == 4096 * q2 + (64 * (q1 % 64) + n % 64);
    assert n == 262144 * q3 + (4096 * (q2 % 64) + 64 * (q1 % 64) + n % 64);
  }

  lemma DecodeTwoOctets(c: char, rest: seq<Byte>)
    requires 0x80 <= c as int < 0x800
    ensures DecodeFirst(Utf8(c) + rest) == Some((c, 2))
  {
    var n := c as int;
    var bs := Utf8(c) + rest;
    DivChain(n);
    assert bs[0] == 0xC0 + n / 64 && bs[1] == 0x80 + n % 64;
    assert (bs[0] as int - 0xC0) * 64 + Low6(bs[1]) == n;
  }

  lemma DecodeThreeOctets(c: char, rest: seq<Byte>)
    requires 0x800 <= c as int < 0x10000
    ensures DecodeFirst(Utf8(c) + rest) == Some((c, 3))
  {
    var n := c as int;
    var bs := Utf8(c) + rest;
    DivChain(n);
    assert bs[0] == 0xE0 + n / 4096 && bs[1] == 0x80 + n / 64 % 64 && bs[2] == 0x80 + n % 64;
    assert (bs[0] as int - 0xE0) * 4096 + Low6(bs[1]) * 64 + Low6(bs[2]) == n;
  }

  lemma DecodeFourOctets(c: char, rest: seq<Byte>)
    requires 0x10000 <= c as int
    ensures DecodeFirst(Utf8(c) + rest) == Some((c, 4))
  {
    var n := c as int;
    var bs := Utf8(c) + rest;
    DivChain(n);
    assert bs[0] == 0xF0 + n / 262144 && bs[1] == 0x80 + n / 4096 % 64;
    assert bs[2] == 0x80 + n / 64 % 64 && bs[3] == 0x80 + n % 64;
    assert (bs[0] as int - 0xF0) * 262144 + Low6(bs[1]) * 4096 + Low6(bs[2]) * 64 + Low6(bs[3]) == n;
  }

  /** The decoder reads exactly one encoded scalar value back. */
  lemma DecodeFirstUtf8(c: char, rest: seq<Byte>)
    ensures DecodeFirst(Utf8(c) + rest) == Some((c, |Utf8(c)|))
  {
    var n := c as int;
    if n < 0x80 {
    } else if n < 0x800 {
      DecodeTwoOctets(c, rest);
    } else if n < 0x10000 {
      DecodeThreeOctets(c, rest);
    } else {
      DecodeFourOctets(c, rest);
    }
  }

  /** UTF-8 decoding inverts UTF-8 encoding. */
  lemma {:induction false} Utf8RoundTrip(s: string)
    ensures Utf8Decode(Utf8Encode(s)) == Some(s)
    decreases |s|
  {
    if s != [] {
      var head := Utf8(s[0]);
      var tail := Utf8Encode(s[1..]);
      DecodeFirstUtf8(s[0], tail);
      assert (head + tail)[|head|..] == tail;
      Utf8RoundTrip(s[1..]);
      assert [s[0]] + s[1..] == s;
    }
  }

  // ---------------------------------------------------------------------------------
  // Percent-encoding
  // ---------------------------------------------------------------------------------

  predicate IsHexDigit(c: char)
  {
    ('0' <= c <= '9') || ('A' <= c <= 'F') || ('a' <= c <= 'f')
  }

  /** The upper-case hexadecimal digit `quote` writes for a nibble. */
  function HexDigit(d: int): (c: char)
    requires 0 <= d < 16
    ensures IsHexDigit(c)
  {
    if d < 10 then ('0' as int + d) as char else ('A' as int + d - 10) as char
  }

  function HexValue(c: char): (d: int)
    requires IsHexDigit(c)
    ensures 0 <= d < 16
  {
    if '0' <= c <= '9' then c as int - '0' as int
    else if 'A' <= c <= 'F' then c as int - 'A' as int + 10
    else c as int - 'a' as int + 10
  }

  /** Each octet as "%XY". */
  function PercentOctets(bs: seq<Byte>): (r: string)
    ensures |r| == 3 * |bs|
    ensures forall i :: 0 <= i < |r| ==> r[i] == '%' || IsHexDigit(r[i])
  {
    if bs == [] then [] else ['%', HexDigit(bs[0] / 16), HexDigit(bs[0] % 16)] + PercentOctets(bs[1..])
  }

  function QuoteChar(c: char): string
  {
    if IsSafe(c) then [c] else PercentOctets(Utf8(c))
  }

  /** `urllib.parse.quote(s)`. */
  function Quote(s: string): (r: string)
    ensures |r| >= |s|
    ensures (forall i :: 0 <= i < |s| ==> IsUnreserved(s[i])) ==> r == s
  {
    if s == [] then [] else QuoteChar(s[0]) + Quote(s[1..])
  }

  /** Decodes every "%XY" triple to its octet and every other character to its UTF-8 octets. */
  function UnquoteOctets(s: string): seq<Byte>
    decreases |s|
  {
    if s == [] then []
    else if |s| >= 3 && s[0] == '%' && IsHexDigit(s[1]) && IsHexDigit(s[2]) then
      [HexValue(s[1]) * 16 + HexValue(s[2])] + UnquoteOctets(s[3..])
    else Utf8(s[0]) + UnquoteOctets(s[1..])
  }

  /** `urllib.parse.unquote` on well-formed input; None where the octets are not UTF-8. */
  function Unquote(s: string): Option<string>
  {
    Utf8Decode(UnquoteOctets(s))
  }

  lemma HexRoundTrip(d: int)
    requires 0 <= d < 16
    ensures HexValue(HexDigit(d)) == d
  {
  }

  /** One "%XY" triple decodes to the octet it encodes. */
  lemma UnquoteTriple(b: Byte, more: string)
    ensures UnquoteOctets(['%', HexDigit(b / 16), HexDigit(b % 16)] + more) == [b] + UnquoteOctets(more)
  {
    var s := ['%', HexDigit(b / 16), HexDigit(b % 16)] + more;
    HexRoundTrip(b / 16);
    HexRoundTrip(b % 16);
    assert s[0] == '%' && s[1] == HexDigit(b / 16) && s[2] == HexDigit(b % 16);
    assert s[3..] == more;
  }

  lemma {:induction false} UnquotePercentOctets(bs: seq<Byte>, rest: string)
    ensures UnquoteOctets(PercentOctets(bs) + rest) == bs + UnquoteOctets(rest)
    decreases |bs|
  {
    if bs != [] {
      var b := bs[0];
      var triple := ['%', HexDigit(b / 16), HexDigit(b % 16)];
      AppendAssoc(triple, PercentOctets(bs[1..]), rest);
      UnquoteTriple(b, PercentOctets(bs[1..]) + rest);
      UnquotePercentOctets(bs[1..], rest);
      AppendAssoc([b], bs[1..], UnquoteOctets(rest));
      assert [b] + bs[1..] == bs;
    } else {
      assert PercentOctets(bs) + rest == rest;
    }
  }

  lemma {:induction false} UnquoteOctetsOfQuote(s: string)
    ensures UnquoteOctets(Quote(s)) == Utf8Encode(s)
    decreases |s|
  {
    if s != [] {
      var c := s[0];
      UnquoteOctetsOfQuote(s[1..]);
      if IsSafe(c) {
        var q := [c] + Quote(s[1..]);
        assert q[0] == c && q[1..] == Quote(s[1..]);
        assert c as int < 0x80;
      } else {
        UnquotePercentOctets(Utf8(c), Quote(s[1..]));
      }
    }
  }

  /** Percent-decoding an encoded segment gives back the original text. */
  lemma UnquoteQuote(s: string)
    ensures Unquote(Quote(s)) == Some(s)
  {
    UnquoteOctetsOfQuote(s);
    Utf8RoundTrip(s);
  }

  /** Quoting a concatenation quotes each side. */
  lemma {:induction false} QuoteAppend(s: string, t: string)
    ensures Quote(s + t) == Quote(s) + Quote(t)
    decreases |s|
  {
    if s == [] {
      assert s + t == t;
    } else {
      assert (s + t)[0] == s[0] && (s + t)[1..] == s[1..] + t;
      QuoteAppend(s[1..], t);
    }
  }

  lemma NoSeparatorAppend(a: string, b: string, seps: set<char>)
    ensures NoSeparator(a + b, seps) <==> NoSeparator(a, seps) && NoSeparator(b, seps)
  {
    if NoSeparator(a, seps) && NoSeparator(b, seps) {
      forall i | 0 <= i < |a + b| ensures (a + b)[i] !in seps {
        if i >= |a| { assert (a + b)[i] == b[i - |a|]; }
      }
    }
    if NoSeparator(a + b, seps) {
      forall i | 0 <= i < |b| ensures b[i] !in seps {
        assert (a + b)[|a| + i] == b[i];
      }
      forall i | 0 <= i < |a| ensures a[i] !in seps {
        assert (a + b)[i] == a[i];
      }
    }
  }

  lemma QuoteCharSlash(c: char)
    ensures NoSeparator(QuoteChar(c), PosixSeparators) <==> c != '/'
  {
    if IsSafe(c) {
      assert QuoteChar(c) == [c];
      assert QuoteChar(c)[0] == c;
    } else {
      var q := QuoteChar(c);
      forall i | 0 <= i < |q| ensures q[i] !in PosixSeparators {
        assert q[i] == '%' || IsHexDigit(q[i]);
      }
    }
  }

  /** An encoded text contains '/' exactly when the original does (quote keeps '/' safe). */
  lemma {:induction false} QuoteSlash(s: string)
    ensures NoSeparator(Quote(s), PosixSeparators) <==> NoSeparator(s, PosixSeparators)
    decreases |s|
  {
    if s != [] {
      QuoteSlash(s[1..]);
      var c := s[0];
      QuoteCharSlash(c);
      NoSeparatorAppend(QuoteChar(c), Quote(s[1..]), PosixSeparators);
      assert s == [c] + s[1..];
      NoSeparatorAppend([c], s[1..], PosixSeparators);
      assert NoSeparator([c], PosixSeparators) <==> c != '/' by {
        assert [c][0] == c;
      }
    }
  }

  /** Encoding keeps a pathlib part a part: the result is neither empty nor ".". */
  lemma QuotePart(s: string)
    ensures IsPart(Quote(s)) <==> IsPart(s)
  {
    if s != [] {
      var c := s[0];
      assert Quote(s) == QuoteChar(c) + Quote(s[1..]);
      if Quote(s) == "." {
        assert |QuoteChar(c)| == 1 && |Quote(s[1..])| == 0;
        assert QuoteChar(c) == ".";
        assert !IsSafe(c) ==> |QuoteChar(c)| >= 3;
        assert [c] == "." && c == '.';
        assert |s| == 1;
        assert s == ".";
      }
    }
  }

  /** A valid posix part encodes to a valid posix part. */
  lemma QuotePosixPart(s: string)
    ensures IsPosixPart(Quote(s)) <==> IsPosixPart(s)
  {
    QuotePart(s);
    QuoteSlash(s);
  }

  /** `[quote(part) for part in parts]`. */
  function QuoteAll(ps: seq<string>): (r: seq<string>)
    ensures |r| == |ps|
    ensures forall i :: 0 <= i < |ps| ==> r[i] == Quote(ps[i])
  {
    seq(|ps|, i requires 0 <= i < |ps| => Quote(ps[i]))
  }

  /** Quoting a prefix of the parts gives the same prefix of the quoted parts. */
  lemma QuoteAllTake(ps: seq<string>, k: nat)
    requires k <= |ps|
    ensures QuoteAll(ps)[..k] == QuoteAll(ps[..k])
  {
  }

  /** Encoding every part of a posix path keeps every one a valid posix part. */
  lemma QuoteAllPosixParts(ps: seq<string>)
    requires AllPosixParts(ps)
    ensures AllPosixParts(QuoteAll(ps))
  {
    forall i | 0 <= i < |ps| ensures IsPosixPart(QuoteAll(ps)[i]) {
      QuotePosixPart(ps[i]);
    }
  }
}
