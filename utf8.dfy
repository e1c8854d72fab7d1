/**
 * The parts of Go's `unicode/utf8` package that the open-post handlers rely on:
 * encoding one rune (`utf8.EncodeRune`, `string(rune)`, `bytes.Buffer.WriteRune`)
 * and the size of the last rune of a byte string (`utf8.DecodeLastRune`), following
 * the UTF-8 syntax of section 4 of RFC 3629.
 */
module Utf8 {
  import opened GoTypes

  const RuneSelf: int := 0x80
  const MaxRune: int := 0x10FFFF

  /** A Unicode scalar value: a code point that is not a surrogate. */
  predicate IsScalar(r: int) {
    0 <= r <= MaxRune && !(0xD800 <= r <= 0xDFFF)
  }

  /** A continuation byte 10xxxxxx. */
  predicate IsContinuation(b: byte) {
    0x80 <= b <= 0xBF
  }

  /** Go's `utf8.RuneStart`: the byte is not a continuation byte. */
  predicate RuneStart(b: byte) {
    !IsContinuation(b)
  }

  /**
   * The UTF-8 encoding of `r`. Negative values, surrogates and values above
   * U+10FFFF are encoded as U+FFFD, the replacement character.
   */
  function EncodeRune(r: int): (e: seq<byte>)
    ensures 1 <= |e| <= 4
    ensures |e| == 1 <==> 0 <= r < RuneSelf
    ensures |e| == 1 ==> e == [r]
    ensures IsScalar(r) && r >= RuneSelf ==>
      |e| == (if r < 0x800 then 2 else if r < 0x10000 then 3 else 4)
    ensures !IsScalar(r) ==> e == [0xEF, 0xBF, 0xBD]
  {
    if 0 <= r < RuneSelf then [r]
    else if RuneSelf <= r < 0x800 then [0xC0 + r / 0x40, 0x80 + r % 0x40]
    else if !IsScalar(r) then [0xEF, 0xBF, 0xBD]
    else if r < 0x10000 then [0xE0 + r / 0x1000, 0x80 + (r / 0x40) % 0x40, 0x80 + r % 0x40]
    else [0xF0 + r / 0x40000, 0x80 + (r / 0x1000) % 0x40, 0x80 + (r / 0x40) % 0x40, 0x80 + r % 0x40]
  }

  /** Whether `p[1..n]` are continuation bytes and `p[1]` lies in `lo..hi`. */
  predicate Tail(p: seq<byte>, n: nat, lo: byte, hi: byte)
    requires 2 <= n <= |p|
  {
    lo <= p[1] <= hi && forall k :: 2 <= k < n ==> IsContinuation(p[k])
  }

  /**
   * The size `utf8.DecodeRune` reports for the first rune of `p`: 0 for empty
   * input, the length of a well-formed sequence, and 1 for anything ill-formed.
   */
  function DecodeRuneSize(p: seq<byte>): (n: nat)
    ensures n <= |p| && n <= 4
    ensures n == 0 <==> p == []
  {
    if p == [] then 0
    else
      var b0 := p[0];
      if b0 < RuneSelf then 1
      else if 0xC2 <= b0 <= 0xDF then
        (if 2 <= |p| && Tail(p, 2, 0x80, 0xBF) then 2 else 1)
      else if 0xE0 <= b0 <= 0xEF then
        var lo := if b0 == 0xE0 then 0xA0 else 0x80;
        var hi := if b0 == 0xED then 0x9F else 0xBF;
        (if 3 <= |p| && Tail(p, 3, lo, hi) then 3 else 1)
      else if 0xF0 <= b0 <= 0xF4 then
        var lo := if b0 == 0xF0 then 0x90 else 0x80;
        var hi := if b0 == 0xF4 then 0x8F else 0xBF;
        (if 4 <= |p| && Tail(p, 4, lo, hi) then 4 else 1)
      else 1
  }

  /**
   * The backward scan of `utf8.DecodeLastRune`: from index `i` down to `lim`,
   * the first byte that can start a rune; when none is found the scan ends at
   * `lim - 1`, clamped to 0.
   */
  function ScanBack(p: seq<byte>, i: int, lim: nat): (s: nat)
    requires -1 <= i < |p|
    ensures s < |p| || (|p| == 0 && s == 0)
    ensures lim <= i + 1 && lim > 0 ==> lim - 1 <= s
    decreases i + 1
  {
    if i < lim then (if i < 0 then 0 else i)
    else if RuneStart(p[i]) then i
    else ScanBack(p, i - 1, lim)
  }

  /** The size `utf8.DecodeLastRune` reports for the last rune of `p`. */
  function LastRuneSize(p: seq<byte>): (n: nat)
    ensures n <= |p| && n <= 4
    ensures n == 0 <==> p == []
  {
    if p == [] then 0
    else if p[|p| - 1] < RuneSelf then 1
    else
      var lim := if |p| >= 4 then |p| - 4 else 0;
      var start := ScanBack(p, |p| - 2, lim);
      var size := DecodeRuneSize(p[start..]);
      if start + size != |p| then 1 else size
  }

  /** `DecodeRuneSize` accepts every encoding `EncodeRune` produces, whole. */
  lemma DecodeEncoded(r: int)
    ensures DecodeRuneSize(EncodeRune(r)) == |EncodeRune(r)|
  {
    if RuneSelf <= r < 0x800 {
      DecodeTwoBytes(r);
    } else if !IsScalar(r) {
      assert Tail(EncodeRune(r), 3, 0x80, 0xBF);
    } else if 0x800 <= r < 0x10000 {
      DecodeThreeBytes(r);
    } else if 0x10000 <= r {
      DecodeFourBytes(r);
    }
  }

  /** Two-byte encodings: the lead byte is at least 0xC2, so it is not overlong. */
  lemma DecodeTwoBytes(r: int)
    requires RuneSelf <= r < 0x800
    ensures DecodeRuneSize(EncodeRune(r)) == 2
  {
    var e := EncodeRune(r);
    assert e == [0xC0 + r / 0x40, 0x80 + r % 0x40];
    assert 2 <= r / 0x40 < 0x20;
    assert Tail(e, 2, 0x80, 0xBF);
  }

  /** Three-byte encodings respect the narrowed second-byte ranges after 0xE0 and 0xED. */
  lemma DecodeThreeBytes(r: int)
    requires IsScalar(r) && 0x800 <= r < 0x10000
    ensures DecodeRuneSize(EncodeRune(r)) == 3
  {
    var e := EncodeRune(r);
    var hi := r / 0x1000;
    var mid := (r / 0x40) % 0x40;
    assert e == [0xE0 + hi, 0x80 + mid, 0x80 + r % 0x40];
    assert 0 <= hi < 0x10;
    if hi == 0 {
      assert mid == r / 0x40 && 0x20 <= mid;
      assert Tail(e, 3, 0xA0, 0xBF);
    } else if hi == 0xD {
      assert r < 0xD800;
      assert r / 0x40 - 0x340 == mid;
      assert Tail(e, 3, 0x80, 0x9F);
    } else {
      assert Tail(e, 3, 0x80, 0xBF);
    }
  }

  /** Four-byte encodings respect the narrowed second-byte ranges after 0xF0 and 0xF4. */
  lemma DecodeFourBytes(r: int)
    requires IsScalar(r) && 0x10000 <= r
    ensures DecodeRuneSize(EncodeRune(r)) == 4
  {
    var e := EncodeRune(r);
    var hi := r / 0x40000;
    var mid := (r / 0x1000) % 0x40;
    assert e == [0xF0 + hi, 0x80 + mid, 0x80 + (r / 0x40) % 0x40, 0x80 + r % 0x40];
    assert hi <= 4;
    if hi == 0 {
      assert mid == r / 0x1000 && 0x10 <= mid;
      assert Tail(e, 4, 0x90, 0xBF);
    } else if hi == 4 {
      assert r / 0x1000 - 0x100 == mid;
      assert Tail(e, 4, 0x80, 0x8F);
    } else {
      assert Tail(e, 4, 0x80, 0xBF);
    }
  }

  /** The backward scan stops at the nearest rune start above its limit. */
  lemma {:induction false} ScanBackFinds(p: seq<byte>, i: int, lim: nat, k: nat)
    requires lim <= k <= i < |p|
    requires RuneStart(p[k])
    requires forall j :: k < j <= i ==> !RuneStart(p[j])
    ensures ScanBack(p, i, lim) == k
    decreases i
  {
    if i > k {
      ScanBackFinds(p, i - 1, lim, k);
    }
  }

  /** An encoding is one ASCII byte, or a lead byte followed by continuation bytes only. */
  lemma EncodingShape(r: int)
    ensures var e := EncodeRune(r);
      (|e| == 1 ==> e[0] < RuneSelf) &&
      (|e| > 1 ==> RuneStart(e[0]) && forall j :: 1 <= j < |e| ==> IsContinuation(e[j]))
  {
    var e := EncodeRune(r);
    DecodeEncoded(r);
    if |e| > 1 {
      assert e[0] >= 0xC2 by {
        if RuneSelf <= r < 0x800 {
          assert 2 <= r / 0x40;
        }
      }
      assert DecodeRuneSize(e) == |e|;
    }
  }

  /** The last rune of `q + e` is `e` whenever `e` is one whole well-formed rune. */
  lemma LastRuneOfWholeRune(q: seq<byte>, e: seq<byte>)
    requires 1 <= |e| <= 4 && DecodeRuneSize(e) == |e|
    requires |e| == 1 ==> e[0] < RuneSelf
    requires |e| > 1 ==> RuneStart(e[0]) && forall j :: 1 <= j < |e| ==> IsContinuation(e[j])
    ensures LastRuneSize(q + e) == |e|
  {
    var p := q + e;
    var n := |e|;
    assert p[|p| - 1] == e[n - 1];
    if n > 1 {
      forall j | |p| - n < j <= |p| - 2 ensures !RuneStart(p[j]) {
        assert p[j] == e[j - |q|];
      }
      assert RuneStart(p[|p| - n]);
      var lim := if |p| >= 4 then |p| - 4 else 0;
      ScanBackFinds(p, |p| - 2, lim, |p| - n);
      assert p[|p| - n..] == e;
    }
  }

  /**
   * Appending the encoding of any rune and then asking for the size of the last
   * rune gives back exactly the bytes appended, whatever precedes them.
   */
  lemma LastRuneOfEncoding(q: seq<byte>, r: int)
    ensures LastRuneSize(q + EncodeRune(r)) == |EncodeRune(r)|
  {
    EncodingShape(r);
    DecodeEncoded(r);
    LastRuneOfWholeRune(q, EncodeRune(r));
  }

  /** Backspace arithmetic: cutting the last rune off `q + EncodeRune(r)` leaves `q`. */
  lemma DropLastRune(q: seq<byte>, r: int)
    ensures var p := q + EncodeRune(r); p[..|p| - LastRuneSize(p)] == q
  {
    LastRuneOfEncoding(q, r);
    var p := q + EncodeRune(r);
    assert p[..|q|] == q;
  }
}
