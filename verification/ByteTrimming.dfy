/** Byte-limited trimming of variable-length text, as src/main/terminal-scrollback-snapshots.ts does it, for any
    encoding in which continuation bytes are recognisable. */
module ByteTrimming {
  import opened Basics

  type Byte = b: int | 0 <= b < 0x100
  type Bytes = seq<Byte>

  predicate IsContinuation(b: Byte) { b / 64 == 2 }  // (b & 0xc0) === 0x80

  /** One to four bytes, all but the first of them continuation bytes. */
  predicate IsCharacter(c: Bytes) {
    1 <= |c| <= 4 && !IsContinuation(c[0]) && forall i :: 1 <= i < |c| ==> IsContinuation(c[i])
  }

  ghost predicate IsEncoding<T(!new)>(encode: T -> Bytes) { forall v :: IsCharacter(encode(v)) }

  function EncodeAll<T>(encode: T -> Bytes, vs: seq<T>): Bytes {
    if vs == [] then [] else encode(vs[0]) + EncodeAll(encode, vs[1..])
  }

  // ------------------------------------------------------------------- trimming bytes

  function SkipContinuation(bytes: Bytes): (r: Bytes)
    ensures |r| <= |bytes| && r == bytes[|bytes| - |r|..]
  {
    if bytes != [] && IsContinuation(bytes[0]) then SkipContinuation(bytes[1..]) else bytes
  }

  function Last(bytes: Bytes, max: nat): (r: Bytes)
    ensures |r| == Min(|bytes|, max)
  {
    bytes[|bytes| - Min(|bytes|, max)..]
  }

  /** The last `max` bytes, without the continuation bytes they may begin with. */
  function Trailing(bytes: Bytes, max: nat): Bytes { SkipContinuation(Last(bytes, max)) }

  // The scan both trimmers share: the first index from `from` that is not a continuation byte.
  method BoundaryFrom(bytes: Bytes, from: nat) returns (start: nat)
    requires from <= |bytes|
    ensures from <= start <= |bytes| && bytes[start..] == SkipContinuation(bytes[from..])
  {
    start := from;
    while start < |bytes| && IsContinuation(bytes[start])
      invariant from <= start <= |bytes|
      invariant SkipContinuation(bytes[start..]) == SkipContinuation(bytes[from..])
    {
      assert bytes[start..][1..] == bytes[start + 1..];
      start := start + 1;
    }
  }

  method TrailingBytes(bytes: Bytes, maxBytes: nat) returns (r: Bytes)
    requires bytes == [] || !IsContinuation(bytes[0])
    ensures r == Trailing(bytes, maxBytes)
  {
    if |bytes| <= maxBytes { return bytes; }
    var start := BoundaryFrom(bytes, |bytes| - maxBytes);
    return bytes[start..];
  }

  // The bytes `readTrailingUtf8` decodes: at most the last `maxBytes` of a file, from the first boundary.
  method ReadTrailing(file: Bytes, maxBytes: nat) returns (r: Bytes)
    ensures r == Trailing(file, maxBytes)
  {
    var length := Min(|file|, maxBytes);
    LastIsRead(file, maxBytes);
    if length <= 0 { return []; }
    var bytes := file[|file| - length..];
    var start := BoundaryFrom(bytes, 0);
    return bytes[start..];
  }

  lemma LastIsRead(file: Bytes, max: nat)
    ensures var read := file[|file| - Min(|file|, max)..];
            Trailing(file, max) == SkipContinuation(read) && read[0..] == read &&
                (max == 0 ==> Trailing(file, max) == [])
  {
  }

  // ------------------------------------------------------- what trimming means for text

  /** The longest suffix of `vs` whose encoding fits into `max` bytes. */
  function LongestFitting<T>(encode: T -> Bytes, vs: seq<T>, max: nat): (r: seq<T>)
    ensures |r| <= |vs| && r == vs[|vs| - |r|..] && |EncodeAll(encode, r)| <= max
  {
    if |EncodeAll(encode, vs)| <= max then vs else LongestFitting(encode, vs[1..], max)
  }

  /** No longer suffix fits. */
  lemma {:induction false} LongestFittingIsLongest<T>(encode: T -> Bytes, vs: seq<T>, max: nat, k: nat)
    requires k <= |vs| && |EncodeAll(encode, vs[k..])| <= max
    ensures |vs| - k <= |LongestFitting(encode, vs, max)|
  {
    if |EncodeAll(encode, vs)| > max {
      assert vs[0..] == vs;
      assert k > 0;
      assert vs[1..][k - 1..] == vs[k..];
      LongestFittingIsLongest(encode, vs[1..], max, k - 1);
    }
  }

  lemma StartsOnBoundary<T(!new)>(encode: T -> Bytes, vs: seq<T>)
    requires IsEncoding(encode)
    ensures EncodeAll(encode, vs) == [] || !IsContinuation(EncodeAll(encode, vs)[0])
  {
    if vs != [] { assert IsCharacter(encode(vs[0])); }
  }

  lemma {:induction false} SkipsTheCutCharacter(tail: Bytes, rest: Bytes)
    requires forall i :: 0 <= i < |tail| ==> IsContinuation(tail[i])
    ensures SkipContinuation(tail + rest) == SkipContinuation(rest)
  {
    if tail == [] {
      assert tail + rest == rest;
    } else {
      assert (tail + rest)[1..] == tail[1..] + rest;
      SkipsTheCutCharacter(tail[1..], rest);
    }
  }

  lemma TrimmingCutsFirst(e: Bytes, rest: Bytes, max: nat)
    requires IsCharacter(e) && |rest| <= max < |e| + |rest|
    requires rest == [] || !IsContinuation(rest[0])
    ensures Trailing(e + rest, max) == rest
  {
    var start := |e| + |rest| - max;
    assert Last(e + rest, max) == e[start..] + rest;
    SkipsTheCutCharacter(e[start..], rest);
  }

  /** Trimming bytes is trimming characters: exactly the longest suffix that fits survives. */
  lemma {:induction false} TrimmingKeepsLongestSuffix<T(!new)>(encode: T -> Bytes, vs: seq<T>, max: nat)
    requires IsEncoding(encode)
    ensures Trailing(EncodeAll(encode, vs), max) == EncodeAll(encode, LongestFitting(encode, vs, max))
  {
    var bytes := EncodeAll(encode, vs);
    StartsOnBoundary(encode, vs);
    if |bytes| <= max {
      assert Last(bytes, max) == bytes;
    } else {
      var (e, rest) := (encode(vs[0]), EncodeAll(encode, vs[1..]));
      assert IsCharacter(e);
      TrimmingKeepsLongestSuffix(encode, vs[1..], max);
      if |rest| <= max {
        StartsOnBoundary(encode, vs[1..]);
        TrimmingCutsFirst(e, rest, max);
      } else {
        assert Last(e + rest, max) == Last(rest, max);
      }
    }
  }

  /** At most three bytes more than necessary are lost. */
  lemma {:induction false} TrimmingLosesAtMostThreeBytes<T(!new)>(encode: T -> Bytes, vs: seq<T>, max: nat)
    requires IsEncoding(encode)
    ensures |EncodeAll(encode, LongestFitting(encode, vs, max))| >= Min(|EncodeAll(encode, vs)|, max) - 3
  {
    if |EncodeAll(encode, vs)| > max {
      assert IsCharacter(encode(vs[0]));
      TrimmingLosesAtMostThreeBytes(encode, vs[1..], max);
    }
  }

  lemma {:induction false} LongestFittingTwice<T>(encode: T -> Bytes, vs: seq<T>, first: nat, second: nat)
    ensures LongestFitting(encode, LongestFitting(encode, vs, first), second) ==
            LongestFitting(encode, vs, Min(first, second))
  {
    if |EncodeAll(encode, vs)| > first {
      LongestFittingTwice(encode, vs[1..], first, second);
      TwiceDropsFirst(encode, vs, first, second);
    } else {
      Fits(encode, vs, first, second);
    }
  }

  lemma TwiceDropsFirst<T>(encode: T -> Bytes, vs: seq<T>, first: nat, second: nat)
    requires |EncodeAll(encode, vs)| > first
    requires vs != [] && LongestFitting(encode, LongestFitting(encode, vs[1..], first), second) ==
                         LongestFitting(encode, vs[1..], Min(first, second))
    ensures LongestFitting(encode, LongestFitting(encode, vs, first), second) ==
            LongestFitting(encode, vs, Min(first, second))
  {
    DropsFirst(encode, vs, first);
    DropsFirst(encode, vs, Min(first, second));
  }

  lemma Fits<T>(encode: T -> Bytes, vs: seq<T>, first: nat, second: nat)
    requires |EncodeAll(encode, vs)| <= first
    ensures LongestFitting(encode, vs, first) == vs
    ensures LongestFitting(encode, vs, second) == LongestFitting(encode, vs, Min(first, second))
  {
  }

  lemma DropsFirst<T>(encode: T -> Bytes, vs: seq<T>, max: nat)
    requires |EncodeAll(encode, vs)| > max
    ensures vs != [] && LongestFitting(encode, vs, max) == LongestFitting(encode, vs[1..], max)
  {
  }

  /** Trimming to one limit and then to another is trimming once to the smaller. */
  lemma TrimmingTwice<T(!new)>(encode: T -> Bytes, vs: seq<T>, stored: nat, replayed: nat)
    requires IsEncoding(encode)
    ensures Trailing(EncodeAll(encode, vs), Min(stored, replayed)) ==
            Trailing(Trailing(EncodeAll(encode, vs), stored), replayed)
    ensures EncodeAll(encode, LongestFitting(encode, vs, Min(stored, replayed))) ==
            Trailing(Trailing(EncodeAll(encode, vs), stored), replayed)
  {
    TrimmingKeepsLongestSuffix(encode, vs, stored);
    TrimmingKeepsLongestSuffix(encode, LongestFitting(encode, vs, stored), replayed);
    LongestFittingTwice(encode, vs, stored, replayed);
    TrimmingKeepsLongestSuffix(encode, vs, Min(stored, replayed));
  }
}
