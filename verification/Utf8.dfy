/** UTF-8 (section 3 of RFC 3629) between JavaScript strings and bytes. */
module Utf8 {
  import opened Basics
  import opened ByteTrimming

  type Scalar = v: int | 0 <= v < 0xD800 || 0xE000 <= v < 0x11_0000

  function Encode(v: Scalar): (r: Bytes)
    ensures IsCharacter(r)
  {
    if v < 0x80 then [v]
    else if v < 0x800 then [0xC0 + v / 64, 0x80 + v % 64]
    else if v < 0x1_0000 then [0xE0 + v / 4096, 0x80 + v / 64 % 64, 0x80 + v % 64]
    else [0xF0 + v / 262144, 0x80 + v / 4096 % 64, 0x80 + v / 64 % 64, 0x80 + v % 64]
  }

  // The length a leading byte announces; 0 for a byte that leads nothing.
  function Announced(b: Byte): nat {
    if b < 0x80 then 1
    else if b < 0xC0 then 0
    else if b < 0xE0 then 2
    else if b < 0xF0 then 3
    else if b < 0xF8 then 4
    else 0
  }

  function Payload(bytes: seq<int>): int
    requires 1 <= |bytes| <= 4
  {
    if |bytes| == 1 then bytes[0]
    else if |bytes| == 2 then bytes[0] % 32 * 64 + bytes[1] % 64
    else if |bytes| == 3 then bytes[0] % 16 * 4096 + bytes[1] % 64 * 64 + bytes[2] % 64
    else bytes[0] % 8 * 262144 + bytes[1] % 64 * 4096 + bytes[2] % 64 * 64 + bytes[3] % 64
  }

  /** The character at the front and its length; nothing if it is overlong, a surrogate, or cut short. */
  function DecodeFirst(bytes: Bytes): (r: Option<(Scalar, nat)>)
    requires bytes != []
    ensures r.Some? ==> 0 < r.value.1 <= |bytes| && Encode(r.value.0) == bytes[..r.value.1]
  {
    var n := Announced(bytes[0]);
    if n == 0 || n > |bytes| then None
    else
      var v := Payload(bytes[..n]);
      if (0 <= v < 0xD800 || 0xE000 <= v < 0x11_0000) && Encode(v) == bytes[..n] then Some((v, n)) else None
  }

  const REPLACEMENT: Scalar := 0xFFFD

  // Whether a second byte can continue the leading one towards a character (section 4 of RFC 3629).
  predicate SecondFits(lead: Byte, second: Byte) {
    if lead == 0xE0 then 0xA0 <= second < 0xC0
    else if lead == 0xED then 0x80 <= second < 0xA0
    else if lead == 0xF0 then 0x90 <= second < 0xC0
    else if lead == 0xF4 then 0x80 <= second < 0x90
    else 0xC2 <= lead < 0xF4 && 0x80 <= second < 0xC0
  }

  /** How much of a malformed front one replacement character stands for: as much as could still become a character. */
  function MalformedLength(bytes: Bytes): (n: nat)
    requires bytes != []
    ensures 0 < n <= |bytes|
  {
    if |bytes| < 2 || !SecondFits(bytes[0], bytes[1]) then 1
    else if Announced(bytes[0]) < 4 || |bytes| < 3 || !IsContinuation(bytes[2]) then 2
    else 3
  }

  /** Buffer.toString: what is no character becomes U+FFFD. */
  function Decode(bytes: Bytes): seq<Scalar>
    decreases |bytes|
  {
    if bytes == [] then []
    else
      match DecodeFirst(bytes)
      case None => [REPLACEMENT] + Decode(bytes[MalformedLength(bytes)..])
      case Some((v, n)) => [v] + Decode(bytes[n..])
  }

  // Numbers written with six bits a place.
  lemma SixBits(x: nat, y: nat, z: nat)
    requires y < 64 && z < 64
    ensures var v := (x * 64 + y) * 64 + z; v / 64 == x * 64 + y && v % 64 == z && v / 4096 == x && v / 64 % 64 == y
  {
    var v := (x * 64 + y) * 64 + z;
    assert v / 64 == x * 64 + y;
    assert v / 4096 == v / 64 / 64;
  }

  lemma PayloadInvertsEncode(v: Scalar)
    ensures Announced(Encode(v)[0]) == |Encode(v)| && Payload(Encode(v)) == v
  {
    if v >= 0x1_0000 {
      FourBytePayload(v);
    } else if v >= 0x800 {
      ThreeBytePayload(v);
    }
  }

  lemma ThreeBytePayload(v: Scalar)
    requires 0x800 <= v < 0x1_0000
    ensures Announced(Encode(v)[0]) == 3 && Payload(Encode(v)) == v
  {
    assert v / 4096 == v / 64 / 64;
  }

  lemma FourBytePayload(v: Scalar)
    requires v >= 0x1_0000
    ensures Announced(Encode(v)[0]) == 4 && Payload(Encode(v)) == v
  {
    assert v / 4096 == v / 64 / 64 && v / 262144 == v / 64 / 64 / 64;
  }

  lemma DecodeFirstInvertsEncode(v: Scalar, rest: Bytes)
    ensures DecodeFirst(Encode(v) + rest) == Some((v, |Encode(v)|))
  {
    PayloadInvertsEncode(v);
    var e := Encode(v);
    assert (e + rest)[0] == e[0] && (e + rest)[..|e|] == e;
  }

  lemma {:induction false} DecodeInvertsEncode(vs: seq<Scalar>)
    ensures Decode(EncodeAll(Encode, vs)) == vs
  {
    if vs != [] {
      var (e, rest) := (Encode(vs[0]), EncodeAll(Encode, vs[1..]));
      DecodeFirstInvertsEncode(vs[0], rest);
      DecodeInvertsEncode(vs[1..]);
      assert (e + rest)[|e|..] == rest;
      assert vs == [vs[0]] + vs[1..];
    }
  }

  /** A character cut short at the end is replaced once. */
  lemma CutCharacterIsReplacedOnce(v: Scalar, k: nat)
    requires 0 < k < |Encode(v)|
    ensures Decode(Encode(v)[..k]) == [0xFFFD]
  {
    var cut := Encode(v)[..k];
    PayloadInvertsEncode(v);
    assert Announced(cut[0]) > k;
    if v >= 0x800 {
      CutSecondFits(v);
    }
    assert MalformedLength(cut) == k;
    assert cut[k..] == [];
  }

  lemma CutSecondFits(v: Scalar)
    requires v >= 0x800
    ensures SecondFits(Encode(v)[0], Encode(v)[1]) && IsContinuation(Encode(v)[2])
  {
  }

  /** The bytes are the beginning of a character, or all of it. */
  ghost predicate Begins(bytes: Bytes, v: Scalar) { |bytes| <= |Encode(v)| && Encode(v)[..|bytes|] == bytes }

  lemma TwoBegin(a: Byte, b: Byte) returns (v: Scalar)
    requires SecondFits(a, b) && a >= 0xE0
    ensures Begins([a, b], v)
  {
    if a < 0xF0 {
      SixBits(a - 0xE0, b - 0x80, 0);
      v := ((a - 0xE0) * 64 + (b - 0x80)) * 64;
    } else {
      v := ThreeBegin(a, b, 0x80);
    }
  }

  lemma ThreeBegin(a: Byte, b: Byte, c: Byte) returns (v: Scalar)
    requires SecondFits(a, b) && 0xF0 <= a && IsContinuation(c)
    ensures Begins([a, b, c], v)
  {
    var high := ((a - 0xF0) * 64 + (b - 0x80)) * 64 + (c - 0x80);
    SixBits(a - 0xF0, b - 0x80, c - 0x80);
    SixBits((a - 0xF0) * 64 + (b - 0x80), c - 0x80, 0);
    v := high * 64;
    assert v / 262144 == v / 64 / 4096;
  }

  lemma WholeCharacterDecodes(bytes: Bytes, v: Scalar, m: nat)
    requires 0 < m <= |bytes| && Encode(v) == bytes[..m]
    ensures DecodeFirst(bytes).Some?
  {
    DecodeFirstInvertsEncode(v, bytes[m..]);
    assert bytes == bytes[..m] + bytes[m..];
  }

  lemma TwoByteCharacterDecodes(bytes: Bytes)
    requires |bytes| >= 2 && 0xC2 <= bytes[0] < 0xE0 && IsContinuation(bytes[1])
    ensures DecodeFirst(bytes).Some?
  {
    var v: Scalar := (bytes[0] as int - 0xC0) * 64 + (bytes[1] - 0x80);
    assert Encode(v) == bytes[..2];
    WholeCharacterDecodes(bytes, v, 2);
  }

  lemma LongerIsNoBeginning(bytes: Bytes, m: nat, v: Scalar)
    requires bytes != [] && DecodeFirst(bytes).None? && MalformedLength(bytes) < m <= |bytes|
    ensures !Begins(bytes[..m], v)
  {
    if Begins(bytes[..m], v) {
      PayloadInvertsEncode(v);
      assert Encode(v)[0] == bytes[0] && Encode(v)[1] == bytes[1];
      if m == |Encode(v)| {
        WholeCharacterDecodes(bytes, v, m);
      } else {
        CutSecondFits(v);
      }
    }
  }

  /** Where no character is, one replacement stands for the longest beginning of a character, or for one byte. */
  lemma MalformedIsMaximal(bytes: Bytes)
    requires bytes != [] && DecodeFirst(bytes).None?
    ensures MalformedLength(bytes) == 1 || exists v :: Begins(bytes[..MalformedLength(bytes)], v)
    ensures forall m, v :: MalformedLength(bytes) < m <= |bytes| ==> !Begins(bytes[..m], v)
  {
    var n := MalformedLength(bytes);
    if n == 2 {
      if bytes[0] < 0xE0 {
        TwoByteCharacterDecodes(bytes);
      } else {
        var v := TwoBegin(bytes[0], bytes[1]);
        assert bytes[..n] == [bytes[0], bytes[1]];
      }
    } else if n == 3 {
      var v := ThreeBegin(bytes[0], bytes[1], bytes[2]);
      assert bytes[..n] == [bytes[0], bytes[1], bytes[2]];
    }
    forall m, v | n < m <= |bytes| ensures !Begins(bytes[..m], v) {
      LongerIsNoBeginning(bytes, m, v);
    }
  }

  // ------------------------------------------------------- strings of UTF-16 code units

  predicate IsHigh(u: CodeUnit) { 0xD800 <= u < 0xDC00 }
  predicate IsLow(u: CodeUnit) { 0xDC00 <= u < 0xE000 }

  function Combine(high: int, low: int): Scalar
    requires 0xD800 <= high < 0xDC00 <= low < 0xE000
  {
    0x1_0000 + (high - 0xD800) * 0x400 + (low - 0xDC00)
  }

  function Surrogates(v: int): Text
    requires 0x1_0000 <= v < 0x11_0000
  {
    [0xD800 + (v - 0x1_0000) / 0x400, 0xDC00 + (v - 0x1_0000) % 0x400]
  }

  /** Buffer.from: surrogate pairs combine, a lone surrogate becomes U+FFFD. */
  function Scalars(s: Text): seq<Scalar>
    decreases |s|
  {
    if s == [] then []
    else if |s| >= 2 && IsHigh(s[0]) && IsLow(s[1]) then
      [Combine(s[0], s[1])] + Scalars(s[2..])
    else if IsHigh(s[0]) || IsLow(s[0]) then [0xFFFD] + Scalars(s[1..])
    else [s[0]] + Scalars(s[1..])
  }

  function Units(vs: seq<Scalar>): Text {
    if vs == [] then []
    else
      (if vs[0] < 0x1_0000 then [vs[0]] else Surrogates(vs[0])) + Units(vs[1..])
  }

  /** A high surrogate that no low one follows, or a low one that follows no high one. */
  predicate IsLone(s: Text, i: nat)
    requires i < |s|
  {
    || (0xD800 <= s[i] < 0xDC00 && !(i + 1 < |s| && 0xDC00 <= s[i + 1] < 0xE000))
    || (0xDC00 <= s[i] < 0xE000 && !(i > 0 && 0xD800 <= s[i - 1] < 0xDC00))
  }

  predicate NoLoneSurrogate(s: Text) { forall i :: 0 <= i < |s| ==> !IsLone(s, i) }

  /** The string with U+FFFD for every lone surrogate. */
  function WellFormed(s: Text): Text {
    seq(|s|, i requires 0 <= i < |s| => if IsLone(s, i) then 0xFFFD else s[i])
  }

  lemma WellFormedSuffix(s: Text, k: nat)
    requires 0 < k <= |s| && (k == |s| || !(IsHigh(s[k - 1]) && IsLow(s[k])))
    ensures WellFormed(s) == WellFormed(s)[..k] + WellFormed(s[k..])
  {
    forall i | 0 <= i < |s| - k ensures IsLone(s[k..], i) == IsLone(s, k + i) {
    }
  }

  lemma PairComesBack(high: CodeUnit, low: CodeUnit, vs: seq<Scalar>)
    requires IsHigh(high) && IsLow(low)
    ensures Units([Combine(high, low)] + vs) == [high, low] + Units(vs)
  {
    assert Combine(high, low) - 0x1_0000 == (high - 0xD800) * 0x400 + (low - 0xDC00);
    assert Surrogates(Combine(high, low)) == [high, low];
    assert ([Combine(high, low)] + vs)[1..] == vs;
  }

  lemma OneComesBack(v: Scalar, vs: seq<Scalar>)
    requires v < 0x1_0000
    ensures Units([v] + vs) == [v] + Units(vs)
  {
    assert ([v] + vs)[1..] == vs;
  }

  /** Through UTF-8 every string comes back well-formed: of the same length, with only its lone surrogates replaced. */
  lemma {:induction false} UnitsOfScalars(s: Text)
    ensures Units(Scalars(s)) == WellFormed(s)
    decreases |s|
  {
    if s != [] {
      if |s| >= 2 && IsHigh(s[0]) && IsLow(s[1]) {
        UnitsOfScalars(s[2..]);
        WellFormedSuffix(s, 2);
        PairComesBack(s[0], s[1], Scalars(s[2..]));
        assert WellFormed(s)[..2] == [s[0], s[1]];
      } else {
        UnitsOfScalars(s[1..]);
        WellFormedSuffix(s, 1);
        OneComesBack(Scalars(s)[0], Scalars(s[1..]));
        assert WellFormed(s)[..1] == [WellFormed(s)[0]];
      }
    }
  }

  lemma UnitsInvertScalars(s: Text)
    requires NoLoneSurrogate(s)
    ensures Units(Scalars(s)) == s
  {
    UnitsOfScalars(s);
  }

  lemma {:induction false} UnitsOfSuffix(vs: seq<Scalar>, k: nat)
    requires k <= |vs|
    ensures |Units(vs[k..])| <= |Units(vs)| && Units(vs[k..]) == Units(vs)[|Units(vs)| - |Units(vs[k..])|..]
  {
    if k > 0 {
      UnitsOfSuffix(vs[1..], k - 1);
      assert vs[1..][k - 1..] == vs[k..];
    } else {
      assert vs[k..] == vs;
    }
  }
}
