/** Percent-encoding as PHP's `rawurlencode` and `rawurldecode` do it:
    the unreserved characters of section 2.3 of RFC 3986 pass through and
    every other byte becomes `%` followed by two upper-case hex digits
    (section 2.1 of RFC 3986). */
module UrlEncoding {
  import opened Text

  /** ALPHA / DIGIT / "-" / "." / "_" / "~" */
  predicate Unreserved(c: Byte) {
    || 'A' <= c <= 'Z'
    || 'a' <= c <= 'z'
    || '0' <= c <= '9'
    || c == '-' || c == '.' || c == '_' || c == '~'
  }

  predicate IsUpperHex(c: Byte) {
    '0' <= c <= '9' || 'A' <= c <= 'F'
  }

  /** The hex digits `rawurldecode` accepts, in either case. */
  predicate IsHex(c: Byte) {
    IsUpperHex(c) || 'a' <= c <= 'f'
  }

  function HexValue(c: Byte): (n: nat)
    requires IsHex(c)
    ensures n < 16
  {
    if '0' <= c <= '9' then c as int - '0' as int
    else if 'A' <= c <= 'F' then c as int - 'A' as int + 10
    else c as int - 'a' as int + 10
  }

  /** The upper-case hex digit of a value below 16. */
  function HexDigit(n: nat): (c: Byte)
    requires n < 16
    ensures IsUpperHex(c) && HexValue(c) == n
  {
    if n < 10 then ('0' as int + n) as char else ('A' as int + n - 10) as char
  }

  /** The encoding of one byte. */
  function EncodeByte(b: Byte): (r: Bytes)
    ensures Unreserved(b) ==> r == [b]
    ensures !Unreserved(b) ==>
              && |r| == 3 && r[0] == '%' && IsUpperHex(r[1]) && IsUpperHex(r[2])
              && HexValue(r[1]) * 16 + HexValue(r[2]) == b as int
  {
    if Unreserved(b) then [b]
    else ['%', HexDigit(b as int / 16), HexDigit(b as int % 16)]
  }

  /** PHP's `rawurlencode`. */
  function RawUrlEncode(s: Bytes): (r: Bytes)
    ensures |s| <= |r| <= 3 * |s|
    ensures forall i :: 0 <= i < |r| ==> Unreserved(r[i]) || r[i] == '%'
  {
    if |s| == 0 then [] else EncodeByte(s[0]) + RawUrlEncode(s[1..])
  }

  /** PHP's `rawurldecode`: a `%` followed by two hex digits becomes the byte
      they spell; every other byte, a stray `%` included, is kept. */
  function RawUrlDecode(s: Bytes): (r: Bytes)
    ensures |r| <= |s|
  {
    if |s| == 0 then []
    else if |s| >= 3 && s[0] == '%' && IsHex(s[1]) && IsHex(s[2]) then
      [(HexValue(s[1]) * 16 + HexValue(s[2])) as char] + RawUrlDecode(s[3..])
    else [s[0]] + RawUrlDecode(s[1..])
  }

  /** Decoding undoes encoding. */
  lemma {:induction false} DecodeEncode(s: Bytes)
    ensures RawUrlDecode(RawUrlEncode(s)) == s
  {
    if |s| > 0 {
      var e := EncodeByte(s[0]);
      var rest := RawUrlEncode(s[1..]);
      DecodeEncode(s[1..]);
      DecodeEncodeByte(s[0]);
      DecodeAppend(e, rest, false);
      assert s == [s[0]] + s[1..];
    }
  }

  /** The encoding of one byte is a single token that decodes to the byte. */
  lemma DecodeEncodeByte(b: Byte)
    ensures Tokens(EncodeByte(b), false)
    ensures RawUrlDecode(EncodeByte(b)) == [b]
  {
    var e := EncodeByte(b);
    if Unreserved(b) {
      assert e[1..] == [];
      DecodeLiteral(e);
    } else {
      assert e[3..] == [];
      DecodeTriplet(e);
      assert (HexValue(e[1]) * 16 + HexValue(e[2])) as char == b;
    }
  }

  /** Every reserved byte grows by two characters. */
  function ReservedCount(s: Bytes): nat {
    if |s| == 0 then 0 else (if Unreserved(s[0]) then 0 else 1) + ReservedCount(s[1..])
  }

  lemma {:induction false} EncodeLength(s: Bytes)
    ensures |RawUrlEncode(s)| == |s| + 2 * ReservedCount(s)
    ensures ReservedCount(s) == 0 <==> forall i :: 0 <= i < |s| ==> Unreserved(s[i])
  {
    if |s| > 0 {
      EncodeLength(s[1..]);
      if forall i :: 0 <= i < |s[1..]| ==> Unreserved(s[1..][i]) {
        if Unreserved(s[0]) {
          forall i | 0 <= i < |s| ensures Unreserved(s[i]) {
            if i > 0 { assert s[i] == s[1..][i - 1]; }
          }
        }
      } else {
        var j :| 0 <= j < |s[1..]| && !Unreserved(s[1..][j]);
        assert s[j + 1] == s[1..][j];
      }
    }
  }

  /** `rawurlencode` changes a string exactly when it holds a reserved byte. */
  lemma {:induction false} EncodeFixedPoint(s: Bytes)
    ensures RawUrlEncode(s) == s <==> forall i :: 0 <= i < |s| ==> Unreserved(s[i])
  {
    EncodeLength(s);
    if forall i :: 0 <= i < |s| ==> Unreserved(s[i]) {
      EncodeIdentity(s);
    }
  }

  lemma {:induction false} EncodeIdentity(s: Bytes)
    requires forall i :: 0 <= i < |s| ==> Unreserved(s[i])
    ensures RawUrlEncode(s) == s
  {
    if |s| > 0 {
      assert forall i :: 0 <= i < |s[1..]| ==> s[1..][i] == s[i + 1];
      EncodeIdentity(s[1..]);
      assert s == [s[0]] + s[1..];
    }
  }

  /** The encoded alphabet as a grammar: a string of unreserved bytes,
      `%HH` triplets with upper-case hex digits and, when `slashOk`, `/`. */
  predicate Tokens(s: Bytes, slashOk: bool) {
    || |s| == 0
    || (&& (Unreserved(s[0]) || (slashOk && s[0] == '/'))
        && Tokens(s[1..], slashOk))
    || (&& |s| >= 3 && s[0] == '%' && IsUpperHex(s[1]) && IsUpperHex(s[2])
        && Tokens(s[3..], slashOk))
  }

  /** The output of `rawurlencode` is in the encoded alphabet, without `/`. */
  lemma {:induction false} EncodeTokens(s: Bytes)
    ensures Tokens(RawUrlEncode(s), false)
  {
    if |s| > 0 {
      var e := EncodeByte(s[0]);
      var rest := RawUrlEncode(s[1..]);
      EncodeTokens(s[1..]);
      if Unreserved(s[0]) {
        assert (e + rest)[1..] == rest;
      } else {
        assert (e + rest)[3..] == rest;
      }
    }
  }

  lemma {:induction false} TokensWiden(s: Bytes)
    requires Tokens(s, false)
    ensures Tokens(s, true)
  {
    if |s| > 0 {
      if Unreserved(s[0]) && Tokens(s[1..], false) {
        TokensWiden(s[1..]);
      } else {
        TokensWiden(s[3..]);
      }
    }
  }

  lemma {:induction false} TokensAppend(a: Bytes, b: Bytes, slashOk: bool)
    requires Tokens(a, slashOk) && Tokens(b, slashOk)
    ensures Tokens(a + b, slashOk)
  {
    if |a| == 0 {
      assert a + b == b;
    } else if (Unreserved(a[0]) || (slashOk && a[0] == '/')) && Tokens(a[1..], slashOk) {
      TokensAppend(a[1..], b, slashOk);
      assert (a + b)[1..] == a[1..] + b;
    } else {
      TokensAppend(a[3..], b, slashOk);
      assert (a + b)[3..] == a[3..] + b;
    }
  }

  /** The grammar read byte by byte: every byte is unreserved, an allowed
      `/`, or a `%` that starts a triplet of upper-case hex digits. */
  predicate TokenByte(s: Bytes, i: nat, slashOk: bool)
    requires i < |s|
  {
    || Unreserved(s[i])
    || (slashOk && s[i] == '/')
    || (s[i] == '%' && i + 2 < |s| && IsUpperHex(s[i + 1]) && IsUpperHex(s[i + 2]))
  }

  lemma {:induction false} TokensBytes(s: Bytes, slashOk: bool)
    requires Tokens(s, slashOk)
    ensures forall i :: 0 <= i < |s| ==> TokenByte(s, i, slashOk)
  {
    if |s| > 0 {
      var k := if (Unreserved(s[0]) || (slashOk && s[0] == '/')) && Tokens(s[1..], slashOk) then 1 else 3;
      TokensBytes(s[k..], slashOk);
      forall i | 0 <= i < |s| ensures TokenByte(s, i, slashOk) {
        if i >= k {
          assert TokenByte(s[k..], i - k, slashOk);
          assert s[i] == s[k..][i - k];
          if i + 2 < |s| {
            assert s[i + 1] == s[k..][i - k + 1];
            assert s[i + 2] == s[k..][i - k + 2];
          }
        }
      }
    }
  }

  lemma DecodeLiteral(s: Bytes)
    requires |s| > 0 && s[0] != '%'
    ensures RawUrlDecode(s) == [s[0]] + RawUrlDecode(s[1..])
  {
  }

  lemma DecodeTriplet(s: Bytes)
    requires |s| >= 3 && s[0] == '%' && IsHex(s[1]) && IsHex(s[2])
    ensures RawUrlDecode(s) == [(HexValue(s[1]) * 16 + HexValue(s[2])) as char] + RawUrlDecode(s[3..])
  {
  }

  lemma ConcatAssoc(x: Bytes, p: Bytes, q: Bytes)
    ensures x + (p + q) == (x + p) + q
  {
  }

  lemma DecodeAppendLiteral(a: Bytes, b: Bytes)
    requires |a| > 0 && a[0] != '%'
    requires RawUrlDecode(a[1..] + b) == RawUrlDecode(a[1..]) + RawUrlDecode(b)
    ensures RawUrlDecode(a + b) == RawUrlDecode(a) + RawUrlDecode(b)
  {
    var ab := a + b;
    assert ab[0] == a[0];
    assert ab[1..] == a[1..] + b;
    DecodeLiteral(ab);
    DecodeLiteral(a);
    ConcatAssoc([a[0]], RawUrlDecode(a[1..]), RawUrlDecode(b));
  }

  lemma DecodeAppendTriplet(a: Bytes, b: Bytes)
    requires |a| >= 3 && a[0] == '%' && IsHex(a[1]) && IsHex(a[2])
    requires RawUrlDecode(a[3..] + b) == RawUrlDecode(a[3..]) + RawUrlDecode(b)
    ensures RawUrlDecode(a + b) == RawUrlDecode(a) + RawUrlDecode(b)
  {
    var ab := a + b;
    assert ab[0] == a[0] && ab[1] == a[1] && ab[2] == a[2];
    assert ab[3..] == a[3..] + b;
    DecodeTriplet(ab);
    DecodeTriplet(a);
    var v: Bytes := [(HexValue(a[1]) * 16 + HexValue(a[2])) as char];
    ConcatAssoc(v, RawUrlDecode(a[3..]), RawUrlDecode(b));
  }

  /** Decoding a string of whole tokens does not reach into what follows it. */
  lemma {:induction false} DecodeAppend(a: Bytes, b: Bytes, slashOk: bool)
    requires Tokens(a, slashOk)
    ensures RawUrlDecode(a + b) == RawUrlDecode(a) + RawUrlDecode(b)
  {
    if |a| == 0 {
      assert a + b == b;
    } else if (Unreserved(a[0]) || (slashOk && a[0] == '/')) && Tokens(a[1..], slashOk) {
      DecodeAppend(a[1..], b, slashOk);
      DecodeAppendLiteral(a, b);
    } else {
      DecodeAppend(a[3..], b, slashOk);
      DecodeAppendTriplet(a, b);
    }
  }
}
