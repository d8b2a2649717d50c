/**
 * The base64url codec of the bridge token (lib/app-token.ts): the standard
 * base64 text of section 4 of RFC 4648 (what Node's Buffer writes), with the
 * padding removed and '+' and '/' replaced by '-' and '_' as in section 5 of
 * RFC 4648 and section 2 of RFC 7515; and the decoder that undoes the
 * replacements and restores the padding before decoding.
 */
module Base64Url {
  import opened Wrappers

  type byte = x: int | 0 <= x < 256
  type sextet = x: int | 0 <= x < 64

  /** The alphabet of section 4 of RFC 4648. */
  function StdChar(v: sextet): char {
    if v < 26 then ('A' as int + v) as char
    else if v < 52 then ('a' as int + (v - 26)) as char
    else if v < 62 then ('0' as int + (v - 52)) as char
    else if v == 62 then '+'
    else '/'
  }

  predicate IsStdChar(c: char) {
    ('A' <= c <= 'Z') || ('a' <= c <= 'z') || ('0' <= c <= '9') || c == '+' || c == '/'
  }

  /** The alphabet of section 5 of RFC 4648. */
  predicate IsUrlChar(c: char) {
    ('A' <= c <= 'Z') || ('a' <= c <= 'z') || ('0' <= c <= '9') || c == '-' || c == '_'
  }

  function StdValue(c: char): sextet
    requires IsStdChar(c)
  {
    if 'A' <= c <= 'Z' then c as int - 'A' as int
    else if 'a' <= c <= 'z' then c as int - 'a' as int + 26
    else if '0' <= c <= '9' then c as int - '0' as int + 52
    else if c == '+' then 62
    else 63
  }

  /** The value of a character of the alphabet is written as that character. */
  lemma ValueChar(c: char)
    requires IsStdChar(c)
    ensures StdChar(StdValue(c)) == c
  {
  }

  lemma StdCharValue(v: sextet)
    ensures IsStdChar(StdChar(v)) && StdValue(StdChar(v)) == v
  {
  }

  /** `s.replace(/from/g, to)` for a single character. */
  function ReplaceAll(s: string, from: char, to: char): string {
    seq(|s|, i requires 0 <= i < |s| => if s[i] == from then to else s[i])
  }

  /** `s.replace(/c/g, "")`: every occurrence of `c` dropped, the rest kept in order. */
  function RemoveAll(s: string, c: char): (r: string)
    ensures c !in r
    ensures forall i :: 0 <= i < |r| ==> r[i] in s
    ensures c !in s ==> r == s
  {
    if s == [] then []
    else if s[0] == c then RemoveAll(s[1..], c)
    else [s[0]] + RemoveAll(s[1..], c)
  }

  lemma {:induction false} RemoveAllConcat(a: string, b: string, c: char)
    ensures RemoveAll(a + b, c) == RemoveAll(a, c) + RemoveAll(b, c)
  {
    if a == [] {
      assert a + b == b;
    } else {
      assert (a + b)[1..] == a[1..] + b;
      RemoveAllConcat(a[1..], b, c);
    }
  }

  /** `c.repeat(n)`. */
  function Repeat(c: char, n: nat): (r: string)
    ensures |r| == n
  {
    seq(n, _ => c)
  }

  lemma {:induction false} RemoveAllRepeat(c: char, n: nat)
    ensures RemoveAll(Repeat(c, n), c) == []
  {
    if n > 0 {
      assert Repeat(c, n)[1..] == Repeat(c, n - 1);
      RemoveAllRepeat(c, n - 1);
    }
  }

  /** Number of '=' characters standard base64 appends to `n` bytes. */
  function PadCount(n: nat): nat {
    (3 - n % 3) % 3
  }

  /** Number of characters of the unpadded base64 text of `n` bytes. */
  function UnpaddedLength(n: nat): nat {
    4 * (n / 3) + (if n % 3 == 0 then 0 else n % 3 + 1)
  }

  /** The characters of section 4 of RFC 4648 for `b`, before padding. */
  function Unpadded(b: seq<byte>): (r: string)
    ensures |r| == UnpaddedLength(|b|)
    ensures forall i :: 0 <= i < |r| ==> IsStdChar(r[i])
    decreases |b|
  {
    if |b| == 0 then []
    else if |b| == 1 then [StdChar(b[0] / 4), StdChar((b[0] % 4) * 16)]
    else if |b| == 2 then
      [StdChar(b[0] / 4), StdChar((b[0] % 4) * 16 + b[1] / 16), StdChar((b[1] % 16) * 4)]
    else Group(b[0], b[1], b[2]) + Unpadded(b[3..])
  }

  /** The four characters of one full group of three bytes. */
  function Group(b0: byte, b1: byte, b2: byte): (r: string)
    ensures |r| == 4 && forall i :: 0 <= i < 4 ==> IsStdChar(r[i])
  {
    StdCharValue(b0 / 4);
    StdCharValue((b0 % 4) * 16 + b1 / 16);
    StdCharValue((b1 % 16) * 4 + b2 / 64);
    StdCharValue(b2 % 64);
    [StdChar(b0 / 4), StdChar((b0 % 4) * 16 + b1 / 16), StdChar((b1 % 16) * 4 + b2 / 64), StdChar(b2 % 64)]
  }

  /** Buffer.toString("base64"): the unpadded text followed by '=' up to a multiple of four. */
  function StdEncode(b: seq<byte>): (r: string)
    ensures |r| % 4 == 0
  {
    PaddedLength(|b|);
    Unpadded(b) + Repeat('=', PadCount(|b|))
  }

  lemma PaddedLength(n: nat)
    ensures (UnpaddedLength(n) + PadCount(n)) % 4 == 0
  {
    var k := n / 3;
    assert n == 3 * k + n % 3;
    if n % 3 == 0 {
      assert UnpaddedLength(n) + PadCount(n) == 4 * k;
    } else if n % 3 == 1 {
      assert UnpaddedLength(n) + PadCount(n) == 4 * k + 4;
    } else {
      assert UnpaddedLength(n) + PadCount(n) == 4 * k + 4;
    }
  }

  /** The three bytes one full group of four characters of section 4 of RFC 4648 stands for. */
  function DecodeQuad(c0: char, c1: char, c2: char, c3: char): Option<seq<byte>> {
    if IsStdChar(c0) && IsStdChar(c1) && IsStdChar(c2) && IsStdChar(c3) then
      var v0, v1, v2, v3 := StdValue(c0), StdValue(c1), StdValue(c2), StdValue(c3);
      Some([v0 * 4 + v1 / 16, (v1 % 16) * 16 + v2 / 4, (v2 % 4) * 64 + v3])
    else None
  }

  /**
   * The last group, which may end in one or two '='. The bits the padding
   * leaves unused must be zero (canonical encoding).
   */
  function DecodeLastQuad(c0: char, c1: char, c2: char, c3: char): Option<seq<byte>> {
    if c2 == '=' && c3 == '=' then
      if IsStdChar(c0) && IsStdChar(c1) && StdValue(c1) % 16 == 0 then
        Some([StdValue(c0) * 4 + StdValue(c1) / 16])
      else None
    else if c3 == '=' then
      if IsStdChar(c0) && IsStdChar(c1) && IsStdChar(c2) && StdValue(c2) % 4 == 0 then
        var v0, v1, v2 := StdValue(c0), StdValue(c1), StdValue(c2);
        Some([v0 * 4 + v1 / 16, (v1 % 16) * 16 + v2 / 4])
      else None
    else DecodeQuad(c0, c1, c2, c3)
  }

  /** Buffer.from(s, "base64"), defined on canonical padded base64 text only. */
  function StdDecode(s: string): Option<seq<byte>>
    decreases |s|
  {
    if s == [] then Some([])
    else if |s| < 4 then None
    else if |s| == 4 then DecodeLastQuad(s[0], s[1], s[2], s[3])
    else
      var head := DecodeQuad(s[0], s[1], s[2], s[3]);
      var tail := StdDecode(s[4..]);
      if head.Some? && tail.Some? then Some(head.value + tail.value) else None
  }

  /** base64UrlEncode (lib/app-token.ts:11-18). */
  function Encode(b: seq<byte>): (r: string)
    ensures forall i :: 0 <= i < |r| ==> IsUrlChar(r[i])
    ensures '=' !in r && '+' !in r && '/' !in r
    ensures |r| == UnpaddedLength(|b|)
  {
    var std := StdEncode(b);
    RemoveAllConcat(Unpadded(b), Repeat('=', PadCount(|b|)), '=');
    RemoveAllRepeat('=', PadCount(|b|));
    assert RemoveAll(std, '=') == Unpadded(b);
    UrlAlphabet(Unpadded(b));
    ReplaceAll(ReplaceAll(RemoveAll(std, '='), '+', '-'), '/', '_')
  }

  /** Swapping '+' and '/' for '-' and '_' turns standard characters into URL-safe ones. */
  lemma UrlAlphabet(s: string)
    requires forall i :: 0 <= i < |s| ==> IsStdChar(s[i])
    ensures var r := ReplaceAll(ReplaceAll(s, '+', '-'), '/', '_');
            |r| == |s| && (forall i :: 0 <= i < |r| ==> IsUrlChar(r[i])) && '=' !in r && '+' !in r && '/' !in r
  {
    var r := ReplaceAll(ReplaceAll(s, '+', '-'), '/', '_');
    forall i | 0 <= i < |r|
      ensures IsUrlChar(r[i])
    {
      assert IsStdChar(s[i]);
    }
  }

  /** Number of '=' the decoder appends to a text of length `n`. */
  function PadLength(n: nat): (p: nat)
    ensures p <= 3 && (n + p) % 4 == 0
  {
    (4 - n % 4) % 4
  }

  /** The decoder's undoing of the alphabet change: '-' back to '+', '_' back to '/'. */
  function ToStd(s: string): string {
    ReplaceAll(ReplaceAll(s, '-', '+'), '_', '/')
  }

  /**
   * base64UrlDecodeToBuffer (lib/app-token.ts:20-24); None where the text is
   * not canonical base64. On base64url text, whatever it accepts is exactly
   * the encoding of what it returns.
   */
  function Decode(s: string): (r: Option<seq<byte>>)
    ensures r.Some? && (forall i :: 0 <= i < |s| ==> IsUrlChar(s[i])) ==> Encode(r.value) == s
  {
    var r := StdDecode(ToStd(s) + Repeat('=', PadLength(|s|)));
    if r.Some? && forall i :: 0 <= i < |s| ==> IsUrlChar(s[i]) then
      EncodeOfDecoded(s, r.value);
      r
    else r
  }

  /** The byte arithmetic of one group: splitting three bytes into four sextets and joining them back. */
  lemma GroupRoundTrip(b0: byte, b1: byte, b2: byte)
    ensures var v0, v1 := b0 / 4, (b0 % 4) * 16 + b1 / 16;
            var v2, v3 := (b1 % 16) * 4 + b2 / 64, b2 % 64;
            v0 * 4 + v1 / 16 == b0 && (v1 % 16) * 16 + v2 / 4 == b1 && (v2 % 4) * 64 + v3 == b2
  {
  }

  lemma OneByteGroup(b0: byte)
    ensures DecodeLastQuad(StdChar(b0 / 4), StdChar((b0 % 4) * 16), '=', '=') == Some([b0])
  {
    StdCharValue(b0 / 4);
    StdCharValue((b0 % 4) * 16);
  }

  lemma TwoByteGroup(b0: byte, b1: byte)
    ensures DecodeLastQuad(StdChar(b0 / 4), StdChar((b0 % 4) * 16 + b1 / 16), StdChar((b1 % 16) * 4), '=')
            == Some([b0, b1])
  {
    StdCharValue(b0 / 4);
    StdCharValue((b0 % 4) * 16 + b1 / 16);
    StdCharValue((b1 % 16) * 4);
    GroupRoundTrip(b0, b1, 0);
  }

  lemma FullGroup(b0: byte, b1: byte, b2: byte)
    ensures var g := Group(b0, b1, b2); DecodeQuad(g[0], g[1], g[2], g[3]) == Some([b0, b1, b2])
  {
    StdCharValue(b0 / 4);
    StdCharValue((b0 % 4) * 16 + b1 / 16);
    StdCharValue((b1 % 16) * 4 + b2 / 64);
    StdCharValue(b2 % 64);
    GroupRoundTrip(b0, b1, b2);
  }

  lemma ShortRoundTrip(b: seq<byte>)
    requires 1 <= |b| <= 2
    ensures StdDecode(StdEncode(b)) == Some(b)
  {
    var s := StdEncode(b);
    if |b| == 1 {
      assert s == [StdChar(b[0] / 4), StdChar((b[0] % 4) * 16), '=', '='];
      OneByteGroup(b[0]);
      assert b == [b[0]];
    } else {
      assert s == [StdChar(b[0] / 4), StdChar((b[0] % 4) * 16 + b[1] / 16), StdChar((b[1] % 16) * 4), '='];
      TwoByteGroup(b[0], b[1]);
      assert b == [b[0], b[1]];
    }
  }

  lemma StdDecodeStep(s: string)
    requires |s| > 4
    requires DecodeQuad(s[0], s[1], s[2], s[3]).Some? && StdDecode(s[4..]).Some?
    ensures StdDecode(s) == Some(DecodeQuad(s[0], s[1], s[2], s[3]).value + StdDecode(s[4..]).value)
  {
  }

  lemma StdDecodeLastFull(s: string)
    requires |s| == 4 && IsStdChar(s[2]) && IsStdChar(s[3])
    ensures StdDecode(s) == DecodeQuad(s[0], s[1], s[2], s[3])
  {
  }

  lemma StdEncodeGroups(b: seq<byte>)
    requires |b| >= 3
    ensures StdEncode(b) == Group(b[0], b[1], b[2]) + StdEncode(b[3..])
  {
    assert PadCount(|b|) == PadCount(|b| - 3);
  }

  lemma GroupThenRest(b: seq<byte>)
    requires |b| > 3 && StdDecode(StdEncode(b[3..])) == Some(b[3..])
    ensures StdDecode(StdEncode(b)) == Some(b)
  {
    var s := StdEncode(b);
    var g := Group(b[0], b[1], b[2]);
    StdEncodeGroups(b);
    FullGroup(b[0], b[1], b[2]);
    assert s[..4] == g && s[4..] == StdEncode(b[3..]);
    StdDecodeStep(s);
    HeadOfThree(b);
  }

  lemma GroupOnly(b: seq<byte>)
    requires |b| == 3
    ensures StdDecode(StdEncode(b)) == Some(b)
  {
    var s := StdEncode(b);
    StdEncodeGroups(b);
    FullGroup(b[0], b[1], b[2]);
    assert s == Group(b[0], b[1], b[2]);
    StdDecodeLastFull(s);
    ExactlyThree(b);
  }

  lemma {:induction false} StdDecodeEncode(b: seq<byte>)
    ensures StdDecode(StdEncode(b)) == Some(b)
    decreases |b|
  {
    if |b| == 0 {
    } else if |b| <= 2 {
      ShortRoundTrip(b);
    } else if |b| == 3 {
      GroupOnly(b);
    } else {
      StdDecodeEncode(b[3..]);
      GroupThenRest(b);
    }
  }

  /** Undoing the alphabet change restores any text written in the alphabet of section 4. */
  lemma ToStdOfUrl(u: string)
    requires forall i :: 0 <= i < |u| ==> IsStdChar(u[i])
    ensures ToStd(ReplaceAll(ReplaceAll(u, '+', '-'), '/', '_')) == u
  {
  }

  lemma PadLengthOfUnpadded(n: nat)
    ensures PadLength(UnpaddedLength(n)) == PadCount(n)
  {
    var k := n / 3;
    assert n == 3 * k + n % 3;
    if n % 3 == 0 {
      assert UnpaddedLength(n) == 4 * k;
    } else if n % 3 == 1 {
      assert UnpaddedLength(n) == 4 * k + 2;
    } else {
      assert UnpaddedLength(n) == 4 * k + 3;
    }
  }

  /** The decoder inverts the encoder: decoding an encoded byte string returns the original bytes. */
  lemma DecodeEncode(b: seq<byte>)
    ensures Decode(Encode(b)) == Some(b)
  {
    var u := Unpadded(b);
    var e := Encode(b);
    RemoveAllConcat(u, Repeat('=', PadCount(|b|)), '=');
    RemoveAllRepeat('=', PadCount(|b|));
    assert e == ReplaceAll(ReplaceAll(u, '+', '-'), '/', '_');
    ToStdOfUrl(u);
    PadLengthOfUnpadded(|b|);
    assert ToStd(e) + Repeat('=', PadLength(|e|)) == StdEncode(b);
    StdDecodeEncode(b);
  }

  /** The sextet arithmetic of one group: joining four sextets into three bytes and splitting them again. */
  lemma SextetRoundTrip(v0: sextet, v1: sextet, v2: sextet, v3: sextet)
    ensures var b0, b1, b2 := v0 * 4 + v1 / 16, (v1 % 16) * 16 + v2 / 4, (v2 % 4) * 64 + v3;
            && 0 <= b0 < 256 && 0 <= b1 < 256 && 0 <= b2 < 256
            && b0 / 4 == v0 && (b0 % 4) * 16 + b1 / 16 == v1 && (b1 % 16) * 4 + b2 / 64 == v2 && b2 % 64 == v3
  {
  }

  /** The same for a group that ends in one '=': the two bytes split back into the three sextets. */
  lemma TwoByteSextets(v0: sextet, v1: sextet, v2: sextet) returns (b0: byte, b1: byte)
    requires v2 % 4 == 0
    ensures b0 == v0 * 4 + v1 / 16 && b1 == (v1 % 16) * 16 + v2 / 4
    ensures b0 / 4 == v0 && (b0 % 4) * 16 + b1 / 16 == v1 && (b1 % 16) * 4 == v2
  {
    b0, b1 := v0 as int * 4 + v1 / 16, (v1 as int % 16) * 16 + v2 / 4;
  }

  /** The same for a group that ends in two '=': the byte splits back into the two sextets. */
  lemma OneByteSextets(v0: sextet, v1: sextet) returns (b0: byte)
    requires v1 % 16 == 0
    ensures b0 == v0 * 4 + v1 / 16 && b0 / 4 == v0 && (b0 % 4) * 16 == v1
  {
    b0 := v0 as int * 4 + v1 / 16;
  }

  /** The bytes a full group decodes to, and the sextets they split back into. */
  lemma QuadBytes(c0: char, c1: char, c2: char, c3: char) returns (b0: byte, b1: byte, b2: byte)
    requires IsStdChar(c0) && IsStdChar(c1) && IsStdChar(c2) && IsStdChar(c3)
    ensures DecodeQuad(c0, c1, c2, c3) == Some([b0, b1, b2])
    ensures b0 / 4 == StdValue(c0) && (b0 % 4) * 16 + b1 / 16 == StdValue(c1)
    ensures (b1 % 16) * 4 + b2 / 64 == StdValue(c2) && b2 % 64 == StdValue(c3)
  {
    var v0, v1, v2, v3 := StdValue(c0), StdValue(c1), StdValue(c2), StdValue(c3);
    b0, b1, b2 := SextetBytes(v0, v1, v2, v3);
  }

  /** Four sextets pack into three bytes, which split back into the same sextets. */
  lemma SextetBytes(v0: sextet, v1: sextet, v2: sextet, v3: sextet) returns (b0: byte, b1: byte, b2: byte)
    ensures b0 == v0 * 4 + v1 / 16 && b1 == (v1 % 16) * 16 + v2 / 4 && b2 == (v2 % 4) * 64 + v3
    ensures b0 / 4 == v0 && (b0 % 4) * 16 + b1 / 16 == v1 && (b1 % 16) * 4 + b2 / 64 == v2 && b2 % 64 == v3
  {
    SextetRoundTrip(v0, v1, v2, v3);
    b0, b1, b2 := v0 as int * 4 + v1 / 16, (v1 as int % 16) * 16 + v2 / 4, (v2 as int % 4) * 64 + v3;
  }

  lemma QuadGroup(c0: char, c1: char, c2: char, c3: char)
    requires IsStdChar(c0) && IsStdChar(c1) && IsStdChar(c2) && IsStdChar(c3)
    ensures var q := DecodeQuad(c0, c1, c2, c3);
            q.Some? && |q.value| == 3 && Group(q.value[0], q.value[1], q.value[2]) == [c0, c1, c2, c3]
  {
    var b0, b1, b2 := QuadBytes(c0, c1, c2, c3);
    GroupOfSextets(b0, b1, b2, StdValue(c0), StdValue(c1), StdValue(c2), StdValue(c3));
    ValueChar(c0);
    ValueChar(c1);
    ValueChar(c2);
    ValueChar(c3);
  }

  /** The characters of a group are those of the four sextets its bytes split into. */
  lemma GroupOfSextets(b0: byte, b1: byte, b2: byte, v0: sextet, v1: sextet, v2: sextet, v3: sextet)
    requires b0 / 4 == v0 && (b0 % 4) * 16 + b1 / 16 == v1 && (b1 % 16) * 4 + b2 / 64 == v2 && b2 % 64 == v3
    ensures Group(b0, b1, b2) == [StdChar(v0), StdChar(v1), StdChar(v2), StdChar(v3)]
  {
  }

  /** The byte a group ending in "==" decodes to, and the sextets it splits back into. */
  lemma OneByteOfQuad(c0: char, c1: char, b: seq<byte>)
    requires IsStdChar(c0) && IsStdChar(c1)
    requires DecodeLastQuad(c0, c1, '=', '=') == Some(b)
    ensures |b| == 1 && b[0] / 4 == StdValue(c0) && (b[0] % 4) * 16 == StdValue(c1)
  {
    var b0 := OneByteSextets(StdValue(c0), StdValue(c1));
    assert b == [b0];
  }

  /** The two bytes a group ending in "=" decodes to, and the sextets they split back into. */
  lemma TwoBytesOfQuad(c0: char, c1: char, c2: char, b: seq<byte>)
    requires IsStdChar(c0) && IsStdChar(c1) && IsStdChar(c2)
    requires DecodeLastQuad(c0, c1, c2, '=') == Some(b)
    ensures |b| == 2 && b[0] / 4 == StdValue(c0) && (b[0] % 4) * 16 + b[1] / 16 == StdValue(c1)
    ensures (b[1] % 16) * 4 == StdValue(c2)
  {
    var b0, b1 := TwoByteSextets(StdValue(c0), StdValue(c1), StdValue(c2));
    assert b == [b0, b1];
  }

  lemma TwoCharGroup(t: string, b: seq<byte>)
    requires |t| == 2 && IsStdChar(t[0]) && IsStdChar(t[1])
    requires DecodeLastQuad(t[0], t[1], '=', '=') == Some(b)
    ensures Unpadded(b) == t
  {
    OneByteOfQuad(t[0], t[1], b);
    ValueChar(t[0]);
    ValueChar(t[1]);
    assert Unpadded(b) == [StdChar(StdValue(t[0])), StdChar(StdValue(t[1]))];
  }

  lemma ThreeCharGroup(t: string, b: seq<byte>)
    requires |t| == 3 && IsStdChar(t[0]) && IsStdChar(t[1]) && IsStdChar(t[2])
    requires DecodeLastQuad(t[0], t[1], t[2], '=') == Some(b)
    ensures Unpadded(b) == t
  {
    TwoBytesOfQuad(t[0], t[1], t[2], b);
    ValueChar(t[0]);
    ValueChar(t[1]);
    ValueChar(t[2]);
    assert Unpadded(b) == [StdChar(StdValue(t[0])), StdChar(StdValue(t[1])), StdChar(StdValue(t[2]))];
  }

  lemma ShortQuadGroup(t: string, b: seq<byte>)
    requires 1 <= |t| <= 3 && forall i :: 0 <= i < |t| ==> IsStdChar(t[i])
    requires StdDecode(t + Repeat('=', PadLength(|t|))) == Some(b)
    ensures Unpadded(b) == t
  {
    var padded := t + Repeat('=', PadLength(|t|));
    assert |padded| == 4;
    if |t| == 1 {
      assert false;
    } else if |t| == 2 {
      assert padded == [t[0], t[1], '=', '='];
      TwoCharGroup(t, b);
    } else {
      assert padded == [t[0], t[1], t[2], '='];
      ThreeCharGroup(t, b);
    }
  }

  lemma {:induction false} StdDecodeUnpadded(t: string, b: seq<byte>)
    requires forall i :: 0 <= i < |t| ==> IsStdChar(t[i])
    requires StdDecode(t + Repeat('=', PadLength(|t|))) == Some(b)
    ensures Unpadded(b) == t
    decreases |t|
  {
    if |t| == 0 {
      assert t + Repeat('=', PadLength(|t|)) == [];
    } else if |t| <= 3 {
      ShortQuadGroup(t, b);
    } else if |t| == 4 {
      FourCharGroup(t, b);
    } else {
      var tail := TailDecodes(t, b);
      StdDecodeUnpadded(t[4..], tail);
      JoinGroups(t, b, tail);
    }
  }

  lemma FourCharGroup(t: string, b: seq<byte>)
    requires |t| == 4 && forall i :: 0 <= i < |t| ==> IsStdChar(t[i])
    requires StdDecode(t + Repeat('=', PadLength(|t|))) == Some(b)
    ensures Unpadded(b) == t
  {
    assert t + Repeat('=', PadLength(|t|)) == t;
    StdDecodeLastFull(t);
    QuadGroup(t[0], t[1], t[2], t[3]);
    UnpaddedThree(b);
    HeadOfFour(t);
  }

  lemma UnpaddedThree(b: seq<byte>)
    requires |b| == 3
    ensures Unpadded(b) == Group(b[0], b[1], b[2])
  {
    assert b[3..] == [];
  }

  /** A sequence of at least three elements is its first three followed by the rest. */
  lemma HeadOfThree<T>(b: seq<T>)
    requires |b| >= 3
    ensures b == [b[0], b[1], b[2]] + b[3..]
  {
  }

  lemma ExactlyThree<T>(b: seq<T>)
    requires |b| == 3
    ensures b == [b[0], b[1], b[2]]
  {
  }

  lemma HeadOfFour<T>(t: seq<T>)
    requires |t| == 4
    ensures t == [t[0], t[1], t[2], t[3]]
  {
  }

  /** The tail of a padded text longer than one group decodes on its own, to what follows the first group's bytes. */
  lemma TailDecodes(t: string, b: seq<byte>) returns (tail: seq<byte>)
    requires |t| > 4 && forall i :: 0 <= i < |t| ==> IsStdChar(t[i])
    requires StdDecode(t + Repeat('=', PadLength(|t|))) == Some(b)
    ensures StdDecode(t[4..] + Repeat('=', PadLength(|t[4..]|))) == Some(tail)
    ensures DecodeQuad(t[0], t[1], t[2], t[3]).Some? && b == DecodeQuad(t[0], t[1], t[2], t[3]).value + tail
  {
    var padded := t + Repeat('=', PadLength(|t|));
    PaddedTail(t);
    StdDecodeSplit(padded);
    tail := StdDecode(padded[4..]).value;
  }

  /** The first group's characters followed by the tail's characters make up the text. */
  lemma JoinGroups(t: string, b: seq<byte>, tail: seq<byte>)
    requires |t| > 4 && forall i :: 0 <= i < 4 ==> IsStdChar(t[i])
    requires DecodeQuad(t[0], t[1], t[2], t[3]).Some? && b == DecodeQuad(t[0], t[1], t[2], t[3]).value + tail
    requires Unpadded(tail) == t[4..]
    ensures Unpadded(b) == t
  {
    var head := DecodeQuad(t[0], t[1], t[2], t[3]).value;
    QuadGroup(t[0], t[1], t[2], t[3]);
    UnpaddedCons(head, tail);
    assert t == [t[0], t[1], t[2], t[3]] + t[4..];
  }

  /** Padding a text longer than one group pads its tail the same way. */
  lemma PaddedTail(t: string)
    requires |t| > 4
    ensures var p := t + Repeat('=', PadLength(|t|));
            |p| > 4 && p[..4] == t[..4] && p[4..] == t[4..] + Repeat('=', PadLength(|t| - 4))
  {
    var p := t + Repeat('=', PadLength(|t|));
    assert PadLength(|t|) == PadLength(|t| - 4);
    assert p[4..] == t[4..] + Repeat('=', PadLength(|t|));
  }

  /** A decodable text longer than one group decodes group by group. */
  lemma StdDecodeSplit(s: string)
    requires |s| > 4 && StdDecode(s).Some?
    ensures DecodeQuad(s[0], s[1], s[2], s[3]).Some? && StdDecode(s[4..]).Some?
    ensures StdDecode(s).value == DecodeQuad(s[0], s[1], s[2], s[3]).value + StdDecode(s[4..]).value
  {
  }

  lemma UnpaddedCons(head: seq<byte>, tail: seq<byte>)
    requires |head| == 3
    ensures Unpadded(head + tail) == Group(head[0], head[1], head[2]) + Unpadded(tail)
  {
    var b := head + tail;
    assert b[..3] == head && b[3..] == tail;
  }

  /** The encoder inverts the decoder on base64url text. */
  lemma EncodeOfDecoded(s: string, b: seq<byte>)
    requires forall i :: 0 <= i < |s| ==> IsUrlChar(s[i])
    requires StdDecode(ToStd(s) + Repeat('=', PadLength(|s|))) == Some(b)
    ensures Encode(b) == s
  {
    var t := ToStd(s);
    assert |t| == |s|;
    assert forall i :: 0 <= i < |t| ==> IsStdChar(t[i]);
    StdDecodeUnpadded(t, b);
    EncodeOfUnpadded(b);
    UrlOfStd(s);
  }

  /** The encoder's output is the unpadded standard text with the alphabet changed. */
  lemma EncodeOfUnpadded(b: seq<byte>)
    ensures Encode(b) == ReplaceAll(ReplaceAll(Unpadded(b), '+', '-'), '/', '_')
  {
    RemoveAllConcat(Unpadded(b), Repeat('=', PadCount(|b|)), '=');
    RemoveAllRepeat('=', PadCount(|b|));
  }

  /** Changing the alphabet back and forth restores any base64url text. */
  lemma UrlOfStd(s: string)
    requires forall i :: 0 <= i < |s| ==> IsUrlChar(s[i])
    ensures ReplaceAll(ReplaceAll(ToStd(s), '+', '-'), '/', '_') == s
  {
  }

  /** Distinct base64url texts never decode to the same bytes. */
  lemma DecodeInjective(s1: string, s2: string)
    requires forall i :: 0 <= i < |s1| ==> IsUrlChar(s1[i])
    requires forall i :: 0 <= i < |s2| ==> IsUrlChar(s2[i])
    requires Decode(s1).Some? && Decode(s1) == Decode(s2)
    ensures s1 == s2
  {
  }
}
