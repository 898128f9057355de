/** PHP byte strings and the string builtins the adapter relies on:
    `explode` and `implode` with a one-byte delimiter, `trim` with a
    one-byte character list, and PHP's truthiness of strings. */
module Text {

  /** PHP strings are sequences of bytes; a byte is a char below 256. */
  type Byte = c: char | c as int < 256
  type Bytes = seq<Byte>

  predicate StartsWith(s: Bytes, prefix: Bytes) {
    |prefix| <= |s| && s[..|prefix|] == prefix
  }

  predicate EndsWith(s: Bytes, suffix: Bytes) {
    |suffix| <= |s| && s[|s| - |suffix|..] == suffix
  }

  lemma StartsWithShorter(s: Bytes, a: Bytes, b: Bytes)
    requires StartsWith(s, a + b)
    ensures StartsWith(s, a)
  {
    assert s[..|a|] == (a + b)[..|a|];
  }

  lemma StartsWithTransitive(s: Bytes, a: Bytes, b: Bytes)
    requires StartsWith(s, a) && StartsWith(a, b)
    ensures StartsWith(s, b)
  {
    assert s[..|b|] == s[..|a|][..|b|];
  }

  /** PHP's truthiness of a string: only "" and "0" are falsy. */
  predicate Truthy(s: Bytes) {
    s != [] && s != "0"
  }

  /** Number of occurrences of `b` in `s`. */
  function Count(b: Byte, s: Bytes): (n: nat)
    ensures n <= |s|
    ensures n == 0 <==> b !in s
  {
    if |s| == 0 then 0 else (if s[0] == b then 1 else 0) + Count(b, s[1..])
  }

  /** `explode(sep, s)`: the pieces between the delimiters, in order.
      Leading, trailing and doubled delimiters yield empty pieces, and
      `explode` of the empty string is one empty piece. */
  function Explode(sep: Byte, s: Bytes): (parts: seq<Bytes>)
    ensures |parts| == Count(sep, s) + 1
    ensures forall i :: 0 <= i < |parts| ==> sep !in parts[i]
  {
    if |s| == 0 then [[]]
    else
      var rest := Explode(sep, s[1..]);
      if s[0] == sep then [[]] + rest
      else [[s[0]] + rest[0]] + rest[1..]
  }

  /** `implode(sep, parts)`: the pieces joined by the delimiter. */
  function Implode(sep: Byte, parts: seq<Bytes>): Bytes {
    if |parts| == 0 then []
    else if |parts| == 1 then parts[0]
    else parts[0] + [sep] + Implode(sep, parts[1..])
  }

  lemma ImplodeCons(sep: Byte, x: Bytes, parts: seq<Bytes>)
    requires |parts| >= 1
    ensures Implode(sep, [x] + parts) == x + [sep] + Implode(sep, parts)
  {
    assert ([x] + parts)[1..] == parts;
  }

  /** Joining the pieces of `explode` gives the string back. */
  lemma {:induction false} ImplodeExplode(sep: Byte, s: Bytes)
    ensures Implode(sep, Explode(sep, s)) == s
  {
    if |s| > 0 {
      var rest := Explode(sep, s[1..]);
      ImplodeExplode(sep, s[1..]);
      assert s == [s[0]] + s[1..];
      if s[0] == sep {
        ImplodeCons(sep, [], rest);
      } else if |rest| == 1 {
        assert Explode(sep, s) == [[s[0]] + rest[0]];
      } else {
        ImplodeFirst(sep, s[0], rest);
      }
    }
  }

  lemma ImplodeFirst(sep: Byte, b: Byte, rest: seq<Bytes>)
    requires |rest| >= 2
    ensures Implode(sep, [[b] + rest[0]] + rest[1..]) == [b] + Implode(sep, rest)
  {
    var parts := [[b] + rest[0]] + rest[1..];
    assert parts[1..] == rest[1..];
    assert Implode(sep, parts) == [b] + rest[0] + [sep] + Implode(sep, rest[1..]);
    assert Implode(sep, rest) == rest[0] + [sep] + Implode(sep, rest[1..]);
  }

  /** Exploding a delimiter-free prefix glued to `t` extends the first piece of `t`. */
  lemma {:induction false} ExplodeAppend(sep: Byte, x: Bytes, t: Bytes)
    requires sep !in x
    ensures Explode(sep, x + t) == [x + Explode(sep, t)[0]] + Explode(sep, t)[1..]
  {
    if |x| == 0 {
      assert x + t == t;
      assert x + Explode(sep, t)[0] == Explode(sep, t)[0];
      assert Explode(sep, t) == [Explode(sep, t)[0]] + Explode(sep, t)[1..];
    } else {
      var pieces := Explode(sep, t);
      var shorter := Explode(sep, x[1..] + t);
      ExplodeAppend(sep, x[1..], t);
      assert shorter[0] == x[1..] + pieces[0] && shorter[1..] == pieces[1..];
      Uncons(x, t);
      ExplodeStep(sep, x[0], x[1..] + t);
      Uncons(x, pieces[0]);
    }
  }

  lemma Uncons(x: Bytes, t: Bytes)
    requires |x| > 0
    ensures x + t == [x[0]] + (x[1..] + t)
  {
    assert x == [x[0]] + x[1..];
  }

  lemma ExplodeStep(sep: Byte, b: Byte, s: Bytes)
    requires b != sep
    ensures Explode(sep, [b] + s) == [[b] + Explode(sep, s)[0]] + Explode(sep, s)[1..]
  {
    assert ([b] + s)[1..] == s;
  }

  /** Pieces that hold no delimiter are recovered by `explode` after `implode`. */
  lemma {:induction false} ExplodeImplode(sep: Byte, parts: seq<Bytes>)
    requires |parts| >= 1
    requires forall i :: 0 <= i < |parts| ==> sep !in parts[i]
    ensures Explode(sep, Implode(sep, parts)) == parts
  {
    if |parts| == 1 {
      ExplodeAppend(sep, parts[0], []);
      assert parts[0] + [] == parts[0];
    } else {
      var tail := Implode(sep, parts[1..]);
      ExplodeImplode(sep, parts[1..]);
      assert ([sep] + tail)[1..] == tail;
      assert Explode(sep, [sep] + tail) == [[]] + parts[1..];
      ExplodeAppend(sep, parts[0], [sep] + tail);
      assert parts[0] + [sep] + tail == parts[0] + ([sep] + tail);
      assert parts[0] + [] == parts[0];
      assert parts == [parts[0]] + parts[1..];
    }
  }

  /** `ltrim(s, c)`: strips every leading `c`. */
  function TrimLeft(c: Byte, s: Bytes): (r: Bytes)
    ensures |r| <= |s| && r == s[|s| - |r|..]
    ensures forall i :: 0 <= i < |s| - |r| ==> s[i] == c
    ensures |r| > 0 ==> r[0] != c
  {
    if |s| > 0 && s[0] == c then TrimLeft(c, s[1..]) else s
  }

  /** `rtrim(s, c)`: strips every trailing `c`. */
  function TrimRight(c: Byte, s: Bytes): (r: Bytes)
    ensures |r| <= |s| && r == s[..|r|]
    ensures forall i :: |r| <= i < |s| ==> s[i] == c
    ensures |r| > 0 ==> r[|r| - 1] != c
  {
    if |s| > 0 && s[|s| - 1] == c then TrimRight(c, s[..|s| - 1]) else s
  }

  /** `trim(s, c)`: strips `c` from both ends. */
  function Trim(c: Byte, s: Bytes): (r: Bytes)
    ensures r == [] <==> forall i :: 0 <= i < |s| ==> s[i] == c
    ensures |r| > 0 ==> r[0] != c && r[|r| - 1] != c
  {
    TrimRight(c, TrimLeft(c, s))
  }

  /** `trim` cuts out one window of `s`, and everything outside it is `c`. */
  lemma TrimWindow(c: Byte, s: Bytes)
    ensures exists lo, hi ::
              && 0 <= lo <= hi <= |s|
              && Trim(c, s) == s[lo..hi]
              && (lo < hi ==> s[lo] != c && s[hi - 1] != c)
              && (forall i :: 0 <= i < lo ==> s[i] == c)
              && (forall i :: hi <= i < |s| ==> s[i] == c)
  {
    var t := Trim(c, s);
    var lo := |s| - |TrimLeft(c, s)|;
    var hi := lo + |t|;
    assert t == s[lo..hi];
    if lo < hi {
      assert s[lo] == t[0];
      assert s[hi - 1] == t[|t| - 1];
    }
  }

  /** A string that neither starts nor ends with `c` is left alone by `trim`. */
  lemma TrimFixed(c: Byte, s: Bytes)
    requires |s| > 0 ==> s[0] != c && s[|s| - 1] != c
    ensures Trim(c, s) == s
  {
  }

  /** `trim` is idempotent. */
  lemma TrimIdempotent(c: Byte, s: Bytes)
    ensures Trim(c, Trim(c, s)) == Trim(c, s)
  {
    TrimFixed(c, Trim(c, s));
  }
}
