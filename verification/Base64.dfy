/**
 * The base64 coder of section 4 of RFC 4648. Masks and shifts by constants are written as remainders and
 * quotients by powers of two.
 */
module Base64 {
  import opened Bytes
  import opened Sequences

  const BASE64_CHARS := "ABCDEFGHIJKLMNOPQRSTUVWXYZ" + "abcdefghijklmnopqrstuvwxyz" + "0123456789+/"

  /** The alphabet, by ranges. */
  function Char(v: int): char
    requires 0 <= v < 64
  {
    if v < 26 then ('A' as int + v) as char
    else if v < 52 then ('a' as int + v - 26) as char
    else if v < 62 then ('0' as int + v - 52) as char
    else if v == 62 then '+'
    else '/'
  }

  predicate IsBase64(c: char) {
    'A' <= c <= 'Z' || 'a' <= c <= 'z' || '0' <= c <= '9' || c == '+' || c == '/'
  }

  /** Where a character stands in the alphabet; for any other, find's npos cut down to an unsigned char. */
  function Find(c: char): uint8 {
    if 'A' <= c <= 'Z' then (c as int - 'A' as int) as uint8
    else if 'a' <= c <= 'z' then (c as int - 'a' as int + 26) as uint8
    else if '0' <= c <= '9' then (c as int - '0' as int + 52) as uint8
    else if c == '+' then 62
    else if c == '/' then 63
    else 255
  }

  /** Char reads the alphabet and Find searches it. */
  lemma CharReadsAlphabet(v: int)
    requires 0 <= v < 64
    ensures |BASE64_CHARS| == 64 && Char(v) == BASE64_CHARS[v]
  {
    if v < 26 {
      assert BASE64_CHARS[v] == "ABCDEFGHIJKLMNOPQRSTUVWXYZ"[v];
    } else if v < 52 {
      assert BASE64_CHARS[v] == "abcdefghijklmnopqrstuvwxyz"[v - 26];
    } else {
      assert BASE64_CHARS[v] == "0123456789+/"[v - 52];
    }
  }

  /** No other character is in the alphabet, and of none of those does Find give a position. */
  lemma OtherCharacters(c: char)
    ensures IsBase64(c) <==> exists v :: 0 <= v < |BASE64_CHARS| && BASE64_CHARS[v] == c
    ensures !IsBase64(c) ==> Find(c) == 255
  {
    if IsBase64(c) {
      CharReadsAlphabet(Find(c) as int);
      assert BASE64_CHARS[Find(c) as int] == c;
    }
    if v :| 0 <= v < |BASE64_CHARS| && BASE64_CHARS[v] == c {
      CharReadsAlphabet(v);
      FindUndoesChar(v);
    }
  }

  lemma FindUndoesChar(v: int)
    requires 0 <= v < 64
    ensures IsBase64(Char(v)) && Char(v) != '=' && Find(Char(v)) as int == v
  {
  }

  /** The four 6-bit values of three bytes. */
  function Sextets(a: uint8, b: uint8, c: uint8): (v: seq<int>)
    ensures |v| == 4 && forall i :: 0 <= i < 4 ==> 0 <= v[i] < 64
  {
    [a as int / 4, a as int % 4 * 16 + b as int / 16, b as int % 16 * 4 + c as int / 64, c as int % 64]
  }

  /** They are the digits in base 64 of the 24-bit number whose digits in base 256 are the bytes. */
  lemma SextetsAreDigits(a: uint8, b: uint8, c: uint8)
    ensures var v := Sextets(a, b, c);
            ((v[0] * 64 + v[1]) * 64 + v[2]) * 64 + v[3] == (a as int * 256 + b as int) * 256 + c as int
  {
  }

  /** The three bytes of four values, each sum cut down to an unsigned char. */
  function Octets(w: uint8, x: uint8, y: uint8, z: uint8): (v: seq<uint8>)
    ensures |v| == 3
  {
    [((w as int * 4 + x as int % 64 / 16) % 256) as uint8,
     ((x as int % 16 * 16 + y as int % 64 / 4) % 256) as uint8,
     ((y as int % 4 * 64 + z as int) % 256) as uint8]
  }

  /** For values of characters of the alphabet the bytes are the digits in base 256 of the same 24-bit number. */
  lemma OctetsAreDigits(w: uint8, x: uint8, y: uint8, z: uint8)
    requires w < 64 && x < 64 && y < 64 && z < 64
    ensures var v := Octets(w, x, y, z);
      (v[0] as int * 256 + v[1] as int) * 256 + v[2] as int
      == ((w as int * 64 + x as int) * 64 + y as int) * 64 + z as int
  {
    SameNumber(w as int, x as int / 16, x as int % 16, y as int / 4, y as int % 4, z as int);
    assert Octets(w, x, y, z)[0] as int == w as int * 4 + x as int / 16;
    assert Octets(w, x, y, z)[1] as int == x as int % 16 * 16 + y as int / 4;
    assert Octets(w, x, y, z)[2] as int == y as int % 4 * 64 + z as int;
  }

  lemma SameNumber(w: int, p: int, q: int, r: int, t: int, z: int)
    ensures ((w * 4 + p) * 256 + (q * 16 + r)) * 256 + (t * 64 + z)
      == ((w * 64 + (p * 16 + q)) * 64 + (r * 4 + t)) * 64 + z
  {
  }

  function Chars(v: seq<int>): (s: string)
    requires forall i :: 0 <= i < |v| ==> 0 <= v[i] < 64
    ensures |s| == |v| && forall i :: 0 <= i < |s| ==> s[i] == Char(v[i])
  {
    if v == [] then "" else [Char(v[0])] + Chars(v[1..])
  }

  /** The encoding before its padding: three bytes at a time, at the end one or two as far as they reach. */
  function Unpadded(x: seq<uint8>): string {
    if |x| == 0 then ""
    else if |x| == 1 then Chars(Sextets(x[0], 0, 0)[..2])
    else if |x| == 2 then Chars(Sextets(x[0], x[1], 0)[..3])
    else Chars(Sextets(x[0], x[1], x[2])) + Unpadded(x[3..])
  }

  function Padding(n: nat): (r: string)
    ensures forall i :: 0 <= i < |r| ==> r[i] == '='
  {
    if n % 3 == 0 then "" else if n % 3 == 1 then "==" else "="
  }

  /** The layout of section 4 of RFC 4648. */
  function Encode(x: seq<uint8>): string {
    Unpadded(x) + Padding(|x|)
  }

  /** The characters that are decoded: up to the first that is no base64 character. */
  function Body(s: string): (b: string)
    ensures |b| <= |s| && b == s[..|b|] && forall i :: 0 <= i < |b| ==> IsBase64(b[i])
    ensures |b| < |s| ==> !IsBase64(s[|b|])
  {
    if s == "" || !IsBase64(s[0]) then "" else [s[0]] + Body(s[1..])
  }

  /** Decoding a body; of an incomplete group of i characters the first i - 1 bytes count. */
  function DecodeBody(b: string): seq<uint8> {
    if |b| == 0 then []
    else if |b| < 4 then
      Octets(Find(b[0]), if |b| > 1 then Find(b[1]) else 255, if |b| > 2 then Find(b[2]) else 255, 255)[..|b| - 1]
    else Octets(Find(b[0]), Find(b[1]), Find(b[2]), Find(b[3])) + DecodeBody(b[4..])
  }

  function Decode(s: string): seq<uint8> {
    DecodeBody(Body(s))
  }

  // ---------- where everything stands ----------

  function ByteAt(x: seq<uint8>, i: nat): uint8 {
    if i < |x| then x[i] else 0
  }

  function ValueAt(b: string, i: nat): uint8 {
    if i < |b| then Find(b[i]) else 255
  }

  /** Each character comes from its own place in its own group of three bytes, the last one filled up with zeros. */
  lemma {:induction false} EncodedAt(x: seq<uint8>, j: nat)
    requires j < |Unpadded(x)|
    ensures var g := j / 4 * 3;
      Unpadded(x)[j] == Char(Sextets(ByteAt(x, g), ByteAt(x, g + 1), ByteAt(x, g + 2))[j % 4])
    decreases |x|
  {
    if |x| >= 3 && j >= 4 {
      EncodedAt(x[3..], j - 4);
      assert (j - 4) / 4 == j / 4 - 1 && (j - 4) % 4 == j % 4;
      TailAt(x, 3);
    } else {
      assert j / 4 == 0 && j % 4 == j;
    }
  }

  lemma TailAt(x: seq<uint8>, n: nat)
    requires n <= |x|
    ensures forall i: nat :: ByteAt(x[n..], i) == ByteAt(x, i + n)
  {
  }

  /** And each byte from its own place in its own group of four characters. */
  lemma {:induction false} DecodedAt(b: string, j: nat)
    requires j < |DecodeBody(b)|
    ensures var g := j / 3 * 4;
      DecodeBody(b)[j] == Octets(ValueAt(b, g), ValueAt(b, g + 1), ValueAt(b, g + 2), ValueAt(b, g + 3))[j % 3]
    decreases |b|
  {
    if |b| >= 4 && j >= 3 {
      DecodedAt(b[4..], j - 3);
      assert (j - 3) / 3 == j / 3 - 1 && (j - 3) % 3 == j % 3;
      ValueTailAt(b, 4);
    } else {
      assert j / 3 == 0 && j % 3 == j;
    }
  }

  lemma ValueTailAt(b: string, n: nat)
    requires n <= |b|
    ensures forall i: nat :: ValueAt(b[n..], i) == ValueAt(b, i + n)
  {
  }

  /** Three bytes for every four characters, and of a rest one less than there are. */
  lemma {:induction false} DecodedLength(b: string)
    ensures |DecodeBody(b)| == |b| / 4 * 3 + (if |b| % 4 == 0 then 0 else |b| % 4 - 1)
    decreases |b|
  {
    if |b| >= 4 {
      DecodedLength(b[4..]);
      assert (|b| - 4) / 4 == |b| / 4 - 1 && (|b| - 4) % 4 == |b| % 4;
    }
  }

  // ---------- the loops ----------

  // The loops carry the text still to come as a value of its own; these say what it is without
  // unfolding the functions it comes from.

  ghost predicate EncodingOf(left: string, rest: seq<uint8>) {
    forall x: seq<uint8> :: x == rest ==> left == Unpadded(x)
  }

  ghost predicate DecodingOf(left: seq<uint8>, rest: string) {
    forall b: string :: b == rest ==> left == DecodeBody(b)
  }

  method EncodeLoop(data: seq<uint8>) returns (ret: string)
    ensures ret == Encode(data)
  {
    ret := "";
    ghost var whole := EncodeStart(data);
    ghost var left := whole;
    var i, k := 0, 0;
    var charArray3 := new uint8[3](_ => 0);
    ghost var start := 0;
    while k < |data|
      invariant 0 <= i < 3 && k == start + i <= |data| && start % 3 == 0
      invariant forall j :: 0 <= j < i ==> charArray3[j] == data[start + j]
      invariant EncodingOf(left, data[start..]) && ret + left == whole
    {
      charArray3[i] := data[k];
      i, k := i + 1, k + 1;
      if i == 3 {
        left := GroupEncoded(data, start, charArray3[0], charArray3[1], charArray3[2], ret, left);
        ret := ret + Chars(Sextets(charArray3[0], charArray3[1], charArray3[2]));
        i, start := 0, k;
      }
    }
    RestIs(charArray3[..i], data, start);
    ret := EncodeRest(charArray3, i, ret, left);
    EncodeEnd(data, whole, start, i);
  }

  lemma EncodeStart(data: seq<uint8>) returns (whole: string)
    ensures EncodingOf(whole, data[0..]) && "" + whole == whole && EncodingOf(whole, data)
  {
    whole := Unpadded(data);
    assert data[0..] == data;
  }

  lemma EncodeEnd(data: seq<uint8>, whole: string, start: nat, i: nat)
    requires EncodingOf(whole, data) && start % 3 == 0 && start + i == |data|
    ensures whole + Padding(i) == Encode(data)
  {
    PaddingOfRest(start, i);
    assert whole == Unpadded(data);
  }

  lemma RestIs<T>(got: seq<T>, whole: seq<T>, start: nat)
    requires start + |got| == |whole| && forall j :: 0 <= j < |got| ==> got[j] == whole[start + j]
    ensures got == whole[start..]
  {
  }

  lemma PaddingOfRest(start: nat, i: nat)
    requires start % 3 == 0
    ensures Padding(start + i) == Padding(i)
  {
    assert (start + i) % 3 == i % 3;
  }

  /** The group left over at the end: filled up with zeros, cut to i + 1 characters, padded to four. */
  method EncodeRest(charArray3: array<uint8>, i: nat, before: string, ghost left: string) returns (ret: string)
    requires charArray3.Length == 3 && i < 3 && EncodingOf(left, charArray3[..i])
    modifies charArray3
    ensures ret == (before + left) + Padding(i)
  {
    ret := before;
    if i > 0 {
      ghost var rest := charArray3[..i];
      var j := i;
      while j < 3
        invariant i <= j <= 3
        invariant forall m :: 0 <= m < i ==> charArray3[m] == rest[m]
        invariant forall m :: i <= m < j ==> charArray3[m] == 0
      {
        charArray3[j] := 0;
        j := j + 1;
      }
      var charArray4 := Sextets(charArray3[0], charArray3[1], charArray3[2]);
      RestOfGroup(rest, left, charArray3[0], charArray3[1], charArray3[2]);
      ret := ret + Chars(charArray4[..i + 1]);
      ghost var body := ret;
      var m := i;
      while m < 3
        invariant i <= m <= 3
        invariant ret == body + Pads(m - i)
      {
        PadsStep(body, m - i);
        ret := ret + "=";
        m := m + 1;
      }
    } else {
      NothingLeft(before, left, charArray3[..i]);
    }
  }

  function Pads(n: nat): string {
    if n == 0 then "" else Pads(n - 1) + "="
  }

  lemma PadsStep(body: string, n: nat)
    ensures (body + Pads(n)) + "=" == body + Pads(n + 1)
    ensures Pads(1) == Padding(2) && Pads(2) == Padding(1)
  {
  }

  lemma RestOfGroup(rest: seq<uint8>, left: string, a: uint8, b: uint8, c: uint8)
    requires 1 <= |rest| < 3 && rest[0] == a && b == (if |rest| > 1 then rest[1] else 0) && c == 0
    requires EncodingOf(left, rest)
    ensures Chars(Sextets(a, b, c)[..|rest| + 1]) == left
  {
    assert left == Unpadded(rest);
  }

  lemma NothingLeft(before: string, left: string, rest: seq<uint8>)
    requires rest == [] && EncodingOf(left, rest)
    ensures before == (before + left) + Padding(0)
  {
    assert left == Unpadded(rest);
  }

  /** A whole group: its characters go from what is left to what is done. */
  lemma GroupEncoded(data: seq<uint8>, p: nat, a: uint8, b: uint8, c: uint8, before: string, left: string)
      returns (left': string)
    requires p + 3 <= |data| && a == data[p] && b == data[p + 1] && c == data[p + 2]
    requires EncodingOf(left, data[p..])
    ensures EncodingOf(left', data[p + 3..])
    ensures (before + Chars(Sextets(a, b, c))) + left' == before + left
  {
    EncodeGroup(data, p, a, b, c, before);
    left' := Unpadded(data[p + 3..]);
  }

  lemma EncodeGroup(data: seq<uint8>, p: nat, a: uint8, b: uint8, c: uint8, ret: string)
    requires p + 3 <= |data| && a == data[p] && b == data[p + 1] && c == data[p + 2]
    ensures ret + Unpadded(data[p..]) == (ret + Chars(Sextets(a, b, c))) + Unpadded(data[p + 3..])
  {
    assert data[p..][3..] == data[p + 3..];
    Associative(ret, Chars(Sextets(a, b, c)), Unpadded(data[p + 3..]));
  }

  method DecodeLoop(inString: string) returns (ret: seq<uint8>)
    ensures ret == Decode(inString)
  {
    ret := [];
    ghost var body := Body(inString);
    ghost var whole := DecodeStart(body);
    ghost var left := whole;
    var i, k := 0, 0;
    var charArray4 := new char[4](_ => '\0');
    ghost var start := 0;
    while k < |inString| && inString[k] != '=' && IsBase64(inString[k])
      invariant 0 <= i < 4 && k == start + i <= |body| && start >= 0
      invariant forall j :: 0 <= j < i ==> charArray4[j] == body[start + j]
      invariant DecodingOf(left, body[start..]) && ret + left == whole
      decreases |inString| - k
    {
      InBody(inString, k);
      charArray4[i] := inString[k];
      i, k := i + 1, k + 1;
      if i == 4 {
        left := GroupDecoded(body, start, charArray4[0], charArray4[1], charArray4[2], charArray4[3], ret, left);
        ret := ret + Octets(Find(charArray4[0]), Find(charArray4[1]), Find(charArray4[2]), Find(charArray4[3]));
        i, start := 0, k;
      }
    }
    BodyEnds(inString, k);
    RestIs(charArray4[..i], body, start);
    ret := DecodeRest(charArray4, i, ret, left);
    assert whole == DecodeBody(body);
  }

  lemma DecodeStart(body: string) returns (whole: seq<uint8>)
    ensures DecodingOf(whole, body[0..]) && [] + whole == whole && DecodingOf(whole, body)
  {
    whole := DecodeBody(body);
    assert body[0..] == body;
  }

  lemma InBody(s: string, k: nat)
    requires k <= |Body(s)| && k < |s| && IsBase64(s[k])
    ensures k < |Body(s)| && Body(s)[k] == s[k]
  {
  }

  lemma BodyEnds(s: string, k: nat)
    requires k <= |Body(s)| && (k == |s| || s[k] == '=' || !IsBase64(s[k]))
    ensures k == |Body(s)|
  {
    assert k < |Body(s)| ==> IsBase64(Body(s)[k]);
  }

  lemma GroupDecoded(body: string, p: nat, a: char, b: char, c: char, d: char, before: seq<uint8>, left: seq<uint8>)
      returns (left': seq<uint8>)
    requires p + 4 <= |body| && a == body[p] && b == body[p + 1] && c == body[p + 2] && d == body[p + 3]
    requires DecodingOf(left, body[p..])
    ensures DecodingOf(left', body[p + 4..])
    ensures (before + Octets(Find(a), Find(b), Find(c), Find(d))) + left' == before + left
  {
    DecodeStep(body, p, a, b, c, d, before);
    left' := DecodeBody(body[p + 4..]);
  }

  lemma DecodeStep(body: string, p: nat, a: char, b: char, c: char, d: char, ret: seq<uint8>)
    requires p + 4 <= |body| && a == body[p] && b == body[p + 1] && c == body[p + 2] && d == body[p + 3]
    ensures ret + DecodeBody(body[p..])
      == (ret + Octets(Find(a), Find(b), Find(c), Find(d))) + DecodeBody(body[p + 4..])
  {
    assert body[p..][4..] == body[p + 4..];
    Associative(ret, Octets(Find(a), Find(b), Find(c), Find(d)), DecodeBody(body[p + 4..]));
  }

  /** The group left over at the end: filled up with NULs, which find does not know, and cut to i - 1 bytes. */
  method DecodeRest(charArray4: array<char>, i: nat, before: seq<uint8>, ghost left: seq<uint8>)
      returns (ret: seq<uint8>)
    requires charArray4.Length == 4 && i < 4 && DecodingOf(left, charArray4[..i])
    modifies charArray4
    ensures ret == before + left
  {
    ret := before;
    ghost var rest := charArray4[..i];
    if i > 0 {
      var j := i;
      while j < 4
        invariant i <= j <= 4
        invariant forall m :: 0 <= m < i ==> charArray4[m] == rest[m]
        invariant forall m :: i <= m < j ==> charArray4[m] == '\0'
      {
        charArray4[j] := '\0';
        j := j + 1;
      }
      var charArray3 := Octets(Find(charArray4[0]), Find(charArray4[1]), Find(charArray4[2]), Find(charArray4[3]));
      assert left == DecodeBody(rest);
      ret := before + charArray3[..i - 1];
    } else {
      assert left == DecodeBody(rest);
      NothingAdded(before);
    }
  }

  // ---------- round trip ----------

  lemma Pack16(hi: int, lo: int)
    requires 0 <= hi < 4 && 0 <= lo < 16
    ensures 0 <= hi * 16 + lo < 64 && (hi * 16 + lo) / 16 == hi && (hi * 16 + lo) % 16 == lo
  {
  }

  lemma Pack4(hi: int, lo: int)
    requires 0 <= hi < 16 && 0 <= lo < 4
    ensures 0 <= hi * 4 + lo < 64 && (hi * 4 + lo) / 4 == hi && (hi * 4 + lo) % 4 == lo
  {
  }

  lemma FirstOctet(a: int, b: int)
    requires 0 <= a < 256 && 0 <= b < 256
    ensures (a / 4 * 4 + (a % 4 * 16 + b / 16) % 64 / 16) % 256 == a
  {
    Pack16(a % 4, b / 16);
  }

  lemma SecondOctet(a: int, b: int, c: int)
    requires 0 <= a < 256 && 0 <= b < 256 && 0 <= c < 256
    ensures ((a % 4 * 16 + b / 16) % 16 * 16 + (b % 16 * 4 + c / 64) % 64 / 4) % 256 == b
  {
    Pack16(a % 4, b / 16);
    Pack4(b % 16, c / 64);
  }

  lemma ThirdOctet(b: int, c: int)
    requires 0 <= b < 256 && 0 <= c < 256
    ensures ((b % 16 * 4 + c / 64) % 4 * 64 + c % 64) % 256 == c
  {
    Pack4(b % 16, c / 64);
  }

  /** Three bytes survive the way through their four values. */
  lemma OctetsUndoSextets(a: uint8, b: uint8, c: uint8)
    ensures var v := Sextets(a, b, c);
      Octets(v[0] as uint8, v[1] as uint8, v[2] as uint8, v[3] as uint8) == [a, b, c]
  {
    FirstOctet(a as int, b as int);
    SecondOctet(a as int, b as int, c as int);
    ThirdOctet(b as int, c as int);
  }

  /** The first bytes do not depend on the values after those that hold them. */
  lemma OctetPrefix(w: uint8, x: uint8, y: uint8, z: uint8, y': uint8, z': uint8)
    ensures Octets(w, x, y, z)[..1] == Octets(w, x, y', z')[..1]
    ensures Octets(w, x, y, z)[..2] == Octets(w, x, y, z')[..2]
  {
  }

  lemma FindUndoesChars(v: seq<int>, i: nat)
    requires i < |v| && forall j :: 0 <= j < |v| ==> 0 <= v[j] < 64
    ensures Find(Chars(v)[i]) == v[i] as uint8 && IsBase64(Chars(v)[i])
  {
    FindUndoesChar(v[i]);
  }

  lemma {:induction false} BodyOf(b: string, rest: string)
    requires forall i :: 0 <= i < |b| ==> IsBase64(b[i])
    requires rest == "" || !IsBase64(rest[0])
    ensures Body(b + rest) == b
    decreases |b|
  {
    if b != "" {
      assert (b + rest)[1..] == b[1..] + rest;
      BodyOf(b[1..], rest);
    }
  }

  /** Four characters for every three bytes begun. */
  lemma EncodedLength(x: seq<uint8>)
    ensures |Encode(x)| == 4 * ((|x| + 2) / 3)
  {
    UnpaddedLength(x);
    PaddingLength(|x|);
  }

  lemma PaddingLength(n: nat)
    ensures n + (n + 2) / 3 + |Padding(n)| == 4 * ((n + 2) / 3)
  {
  }

  lemma {:induction false} UnpaddedLength(x: seq<uint8>)
    ensures |Unpadded(x)| == |x| + (|x| + 2) / 3
    decreases |x|
  {
    if |x| >= 3 {
      UnpaddedLength(x[3..]);
    }
  }

  lemma {:induction false} UnpaddedIsBase64(x: seq<uint8>)
    ensures forall i :: 0 <= i < |Unpadded(x)| ==> IsBase64(Unpadded(x)[i])
    decreases |x|
  {
    if |x| >= 3 {
      UnpaddedIsBase64(x[3..]);
    }
  }

  lemma {:induction false} DecodesUnpadded(x: seq<uint8>)
    ensures DecodeBody(Unpadded(x)) == x
    decreases |x|
  {
    if |x| >= 3 {
      DecodesUnpadded(x[3..]);
      DecodesGroup(x[0], x[1], x[2]);
      var g := Chars(Sextets(x[0], x[1], x[2]));
      assert Unpadded(x)[4..] == Unpadded(x[3..]);
      assert x == [x[0], x[1], x[2]] + x[3..];
    } else if |x| == 2 {
      DecodesTwo(x[0], x[1]);
      assert x == [x[0], x[1]];
    } else if |x| == 1 {
      DecodesOne(x[0]);
      assert x == [x[0]];
    }
  }

  lemma DecodesGroup(a: uint8, b: uint8, c: uint8)
    ensures var s := Chars(Sextets(a, b, c));
      Octets(Find(s[0]), Find(s[1]), Find(s[2]), Find(s[3])) == [a, b, c]
  {
    var v := Sextets(a, b, c);
    FindUndoesChars(v, 0);
    FindUndoesChars(v, 1);
    FindUndoesChars(v, 2);
    FindUndoesChars(v, 3);
    OctetsUndoSextets(a, b, c);
  }

  lemma DecodesTwo(a: uint8, b: uint8)
    ensures DecodeBody(Chars(Sextets(a, b, 0)[..3])) == [a, b]
  {
    var v := Sextets(a, b, 0);
    FindUndoesChars(v[..3], 0);
    FindUndoesChars(v[..3], 1);
    FindUndoesChars(v[..3], 2);
    OctetsUndoSextets(a, b, 0);
    OctetPrefix(v[0] as uint8, v[1] as uint8, v[2] as uint8, v[3] as uint8, 255, 255);
    assert [a, b, 0 as uint8][..2] == [a, b];
  }

  lemma DecodesOne(a: uint8)
    ensures DecodeBody(Chars(Sextets(a, 0, 0)[..2])) == [a]
  {
    var v := Sextets(a, 0, 0);
    FindUndoesChars(v[..2], 0);
    FindUndoesChars(v[..2], 1);
    OctetsUndoSextets(a, 0, 0);
    OctetPrefix(v[0] as uint8, v[1] as uint8, v[2] as uint8, v[3] as uint8, 255, 255);
    assert [a, 0 as uint8, 0 as uint8][..1] == [a];
  }

  /** Decoding undoes encoding, for every byte string. */
  lemma DecodeUndoesEncode(x: seq<uint8>)
    ensures Decode(Encode(x)) == x
  {
    UnpaddedIsBase64(x);
    BodyOf(Unpadded(x), Padding(|x|));
    DecodesUnpadded(x);
  }
}
