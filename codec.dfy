/**
 * The fixed-width codecs of codec.py: `Codec` (eight bits per character)
 * and `CaesarCypher` (shift every code point, then reuse `Codec`).
 *
 * `Codec.decode` finds the end of the message by comparing each 8-bit chunk
 * with `self.encode(self.delimiter)`. That call is dispatched on the
 * receiver, so a `CaesarCypher` compares with the *shifted* delimiter. The
 * model makes the dispatch explicit: `Decode` takes the receiver's encoded
 * delimiter as its `stop` argument.
 */
module Codec {
  import opened Bits

  // ---------------------------------------------------------------------
  // Codec.encode / Codec.decode
  // ---------------------------------------------------------------------

  /** Codec.encode: each character as its eight-bit form, in order. */
  function Encode(text: seq<CodePoint>): (r: seq<Bit>)
    ensures |r| == 8 * |text|
  {
    if text == [] then [] else Byte(text[0]) + Encode(text[1..])
  }

  lemma {:induction false} EncodeAppend(a: seq<CodePoint>, b: seq<CodePoint>)
    ensures Encode(a + b) == Encode(a) + Encode(b)
  {
    if a != [] {
      assert (a + b)[0] == a[0];
      assert (a + b)[1..] == a[1..] + b;
      EncodeAppend(a[1..], b);
      calc {
        Encode(a + b);
        Byte(a[0]) + Encode(a[1..] + b);
        Byte(a[0]) + (Encode(a[1..]) + Encode(b));
        (Byte(a[0]) + Encode(a[1..])) + Encode(b);
      }
    } else {
      assert a + b == b;
    }
  }

  /** Chunk k of the encoding is the eight-bit form of character k. */
  lemma {:induction false} EncodeChunk(text: seq<CodePoint>, k: nat)
    requires k < |text|
    ensures |Encode(text)| == 8 * |text|
    ensures Encode(text)[8 * k .. 8 * k + 8] == Byte(text[k])
  {
    if k > 0 {
      EncodeChunk(text[1..], k - 1);
      var e := Encode(text);
      assert e == Byte(text[0]) + Encode(text[1..]);
      assert e[8 * k .. 8 * k + 8] == Encode(text[1..])[8 * (k - 1) .. 8 * (k - 1) + 8];
    }
  }

  function Min(a: int, b: int): int { if a <= b then a else b }

  /** Every chunk has at most eight bits. */
  ghost predicate Short(chunks: seq<seq<Bit>>)
  {
    forall k :: 0 <= k < |chunks| ==> |chunks[k]| <= 8
  }

  /** int(byte, 2) of a chunk of at most eight bits: always a code point. */
  function ChunkValue(chunk: seq<Bit>): (r: CodePoint)
    requires |chunk| <= 8
    ensures r == Value(chunk)
  {
    Pow2AtMost256(|chunk|);
    Value(chunk)
  }

  /**
   * The chunks data[i..i+8] (i = 0, 8, 16, ...; the last one may be
   * shorter) that come before the first chunk equal to `stop`.
   */
  function Collect(data: seq<Bit>, stop: seq<Bit>): (r: seq<seq<Bit>>)
    ensures forall k :: 0 <= k < |r| ==> 1 <= |r[k]| <= 8 && r[k] != stop
    ensures 8 * |r| <= |data| + 7
    decreases |data|
  {
    if data == [] then []
    else
      var chunk := data[..Min(8, |data|)];
      if chunk == stop then [] else [chunk] + Collect(data[|chunk|..], stop)
  }

  /** chr(int(byte, 2)) of every chunk, in order. */
  function Values(chunks: seq<seq<Bit>>): (r: seq<CodePoint>)
    requires Short(chunks)
    ensures |r| == |chunks|
  {
    if chunks == [] then [] else [ChunkValue(chunks[0])] + Values(chunks[1..])
  }

  /** What Codec.decode returns. */
  function DecodeUntil(data: seq<Bit>, stop: seq<Bit>): (r: seq<CodePoint>)
    ensures |r| == |Collect(data, stop)|
    ensures 8 * |r| <= |data| + 7
  {
    Values(Collect(data, stop))
  }

  /** data[i:], which is empty once i has run past the end. */
  function From(data: seq<Bit>, i: nat): seq<Bit>
  {
    if i <= |data| then data[i..] else []
  }

  /** The first loop of Codec.decode: the chunks before the stop chunk. */
  method CollectChunks(data: seq<Bit>, stop: seq<Bit>) returns (binary: seq<seq<Bit>>)
    ensures binary == Collect(data, stop)
  {
    binary := [];
    var i := 0;
    while i < |data|
      invariant binary + Collect(From(data, i), stop) == Collect(data, stop)
    {
      var byte := data[i .. Min(i + 8, |data|)];
      CollectNext(data, i, stop);
      if byte == stop {
        return;
      }
      binary := binary + [byte];
      i := i + 8;
    }
    assert |From(data, i)| == 0;
  }

  /**
   * Codec.decode, with `stop` = the receiver's encoding of its delimiter:
   * collect the chunks before the stop chunk, then convert each with
   * chr(int(byte, 2)).
   */
  method Decode(data: seq<Bit>, stop: seq<Bit>) returns (text: seq<CodePoint>)
    ensures text == DecodeUntil(data, stop)
  {
    var binary := CollectChunks(data, stop);
    text := [];
    var j := 0;
    while j < |binary|
      invariant j <= |binary|
      invariant text == Values(binary[..j])
    {
      ValuesSnoc(binary, j);
      text := text + [ChunkValue(binary[j])];
      j := j + 1;
    }
    assert binary[..j] == binary;
  }

  lemma ValuesSnoc(chunks: seq<seq<Bit>>, j: nat)
    requires Short(chunks) && j < |chunks|
    ensures Values(chunks[..j + 1]) == Values(chunks[..j]) + [ChunkValue(chunks[j])]
  {
    assert chunks[..j + 1] == chunks[..j] + [chunks[j]];
    ValuesAppend(chunks[..j], [chunks[j]]);
  }

  /** One step of the chunk scan, at offset i. */
  lemma CollectNext(data: seq<Bit>, i: nat, stop: seq<Bit>)
    requires i < |data|
    ensures var byte := data[i .. Min(i + 8, |data|)];
      Collect(From(data, i), stop)
      == if byte == stop then [] else [byte] + Collect(From(data, i + 8), stop)
  {
    var rest := From(data, i);
    assert rest[..Min(8, |rest|)] == data[i .. Min(i + 8, |data|)];
    assert rest[Min(8, |rest|)..] == From(data, i + 8);
  }

  lemma {:induction false} ValuesAppend(a: seq<seq<Bit>>, b: seq<seq<Bit>>)
    requires Short(a) && Short(b)
    ensures Values(a + b) == Values(a) + Values(b)
  {
    if a != [] {
      assert (a + b)[0] == a[0];
      assert (a + b)[1..] == a[1..] + b;
      ValuesAppend(a[1..], b);
      calc {
        Values(a + b);
        [ChunkValue(a[0])] + Values(a[1..] + b);
        [ChunkValue(a[0])] + (Values(a[1..]) + Values(b));
        ([ChunkValue(a[0])] + Values(a[1..])) + Values(b);
      }
    } else {
      assert a + b == b;
    }
  }

  /** Decoding a character's eight bits followed by anything. */
  lemma FirstChunk(c: CodePoint, rest: seq<Bit>, stop: seq<Bit>)
    ensures DecodeUntil(Byte(c) + rest, stop)
      == if Byte(c) == stop then [] else [c] + DecodeUntil(rest, stop)
  {
    var data := Byte(c) + rest;
    assert data[..Min(8, |data|)] == Byte(c);
    assert data[8..] == rest;
    ByteRoundTrip(c);
    if Byte(c) != stop {
      ValuesAppend([Byte(c)], Collect(rest, stop));
    }
  }

  /** Chunks of characters whose form differs from `stop` are all decoded, in order. */
  lemma {:induction false} DecodeEncodePrefix(m: seq<CodePoint>, rest: seq<Bit>, stop: seq<Bit>)
    requires forall k :: 0 <= k < |m| ==> Byte(m[k]) != stop
    ensures DecodeUntil(Encode(m) + rest, stop) == m + DecodeUntil(rest, stop)
  {
    if m == [] {
      assert Encode(m) + rest == rest;
    } else {
      var tail := m[1..];
      assert forall k :: 0 <= k < |tail| ==> Byte(tail[k]) != stop by {
        forall k | 0 <= k < |tail| ensures Byte(tail[k]) != stop {
          assert tail[k] == m[k + 1];
        }
      }
      assert Byte(m[0]) != stop;
      assert Encode(m) + rest == Byte(m[0]) + (Encode(tail) + rest);
      FirstChunk(m[0], Encode(tail) + rest, stop);
      DecodeEncodePrefix(tail, rest, stop);
      calc {
        DecodeUntil(Encode(m) + rest, stop);
        [m[0]] + DecodeUntil(Encode(tail) + rest, stop);
        [m[0]] + (tail + DecodeUntil(rest, stop));
        ([m[0]] + tail) + DecodeUntil(rest, stop);
        { assert [m[0]] + tail == m; }
        m + DecodeUntil(rest, stop);
      }
    }
  }

  /** A chunk equal to `stop` ends decoding, whatever follows it. */
  lemma StopChunkEnds(stop: seq<Bit>, extra: seq<Bit>)
    requires |stop| == 8
    ensures DecodeUntil(stop + extra, stop) == []
  {
    assert (stop + extra)[..Min(8, |stop + extra|)] == stop;
  }

  /** Decoding stops exactly at the stop chunk that follows the characters of m. */
  lemma DecodeUpToStop(m: seq<CodePoint>, stop: seq<Bit>, extra: seq<Bit>)
    requires |stop| == 8
    requires forall k :: 0 <= k < |m| ==> Byte(m[k]) != stop
    ensures DecodeUntil(Encode(m) + (stop + extra), stop) == m
  {
    DecodeEncodePrefix(m, stop + extra, stop);
    StopChunkEnds(stop, extra);
    assert m + [] == m;
  }

  lemma EncodeSingle(c: CodePoint)
    ensures Encode([c]) == Byte(c)
  {
    assert [c][1..] == [];
  }

  /** No character of m other than c has c's eight-bit form. */
  lemma BytesAvoid(m: seq<CodePoint>, c: CodePoint)
    requires c !in m
    ensures forall k :: 0 <= k < |m| ==> Byte(m[k]) != Byte(c)
  {
    forall k | 0 <= k < |m| ensures Byte(m[k]) != Byte(c) {
      ByteInjective(m[k], c);
    }
  }

  /** Round trip of Codec: decode(encode(m + '#') + extra) == m when m has no '#'. */
  lemma DecodeEncode(m: seq<CodePoint>, extra: seq<Bit>)
    requires Delimiter !in m
    ensures DecodeUntil(Encode(m + [Delimiter]) + extra, Encode([Delimiter])) == m
  {
    var stop := Byte(Delimiter);
    EncodeSingle(Delimiter);
    BytesAvoid(m, Delimiter);
    EncodeAppend(m, [Delimiter]);
    assert Encode(m + [Delimiter]) + extra == Encode(m) + (stop + extra);
    DecodeUpToStop(m, stop, extra);
  }

  /**
   * A trailing chunk shorter than eight bits is converted by int(byte, 2),
   * not dropped, when no stop chunk comes before it.
   */
  lemma DecodeKeepsShortTail(m: seq<CodePoint>, tail: seq<Bit>, stop: seq<Bit>)
    requires |stop| == 8
    requires forall k :: 0 <= k < |m| ==> Byte(m[k]) != stop
    requires 0 < |tail| < 8
    ensures DecodeUntil(Encode(m) + tail, stop) == m + [Value(tail)]
  {
    DecodeEncodePrefix(m, tail, stop);
    assert tail[..Min(8, |tail|)] == tail;
    assert tail[|tail|..] == [];
    assert Collect(tail, stop) == [tail];
  }

  // ---------------------------------------------------------------------
  // CaesarCypher
  // ---------------------------------------------------------------------

  /** The default shift of CaesarCypher(). */
  const DefaultShift: int := 3

  /** c_shift: the code point moved by `shift`; callers reduce it modulo 256. */
  function CShift(c: int, shift: int): (r: int)
    ensures r - c == shift
  {
    c + shift
  }

  /**
   * Python's `%` by 256 floors, Dafny's is Euclidean; for the positive
   * modulus 256 both give a value in 0..255.
   */
  function ShiftChar(c: CodePoint, shift: int): (r: CodePoint)
    ensures (CShift(c, shift) - r) % 256 == 0
  {
    CShift(c, shift) % 256
  }

  function ShiftText(text: seq<CodePoint>, shift: int): (r: seq<CodePoint>)
    ensures |r| == |text|
  {
    seq(|text|, i requires 0 <= i < |text| => ShiftChar(text[i], shift))
  }

  /** Shifting by -shift undoes shifting by shift, for every integer shift. */
  lemma ShiftInverse(c: CodePoint, shift: int)
    ensures ShiftChar(ShiftChar(c, shift), -shift) == c
  {
    var a := ShiftChar(c, shift);
    var q := (c + shift) / 256;
    assert c + shift == 256 * q + a;
    assert ShiftChar(a, -shift) == (a - shift) % 256;
    assert a - shift == 256 * (-q) + c;
  }

  lemma ShiftInjective(c: CodePoint, d: CodePoint, shift: int)
    ensures ShiftChar(c, shift) == ShiftChar(d, shift) <==> c == d
  {
    ShiftInverse(c, shift);
    ShiftInverse(d, shift);
  }

  /** The bits CaesarCypher.encode produces. */
  function CaesarEncoded(text: seq<CodePoint>, shift: int): seq<Bit>
  {
    Encode(ShiftText(text, shift))
  }

  /** CaesarCypher.encode: shift each character, then Codec.encode. */
  method CaesarEncode(text: seq<CodePoint>, shift: int) returns (bits: seq<Bit>)
    ensures |bits| == 8 * |text|
    ensures forall k :: 0 <= k < |text| ==> bits[8 * k .. 8 * k + 8] == Byte(ShiftChar(text[k], shift))
    ensures bits == CaesarEncoded(text, shift)
  {
    var data: seq<CodePoint> := [];
    for i := 0 to |text|
      invariant data == ShiftText(text[..i], shift)
    {
      data := data + [ShiftChar(text[i], shift)];
    }
    assert text[..|text|] == text;
    bits := Encode(data);
    forall k | 0 <= k < |text|
      ensures bits[8 * k .. 8 * k + 8] == Byte(ShiftChar(text[k], shift))
    {
      EncodeChunk(data, k);
    }
  }

  /** The unshifted characters, up to the first one that unshifts to '#'. */
  function Unshift(d: seq<CodePoint>, shift: int): (r: seq<CodePoint>)
    ensures |r| <= |d|
    ensures forall i :: 0 <= i < |r| ==> r[i] == ShiftChar(d[i], -shift) && r[i] != Delimiter
    ensures |r| < |d| ==> ShiftChar(d[|r|], -shift) == Delimiter
  {
    if d == [] then []
    else
      var ch := ShiftChar(d[0], -shift);
      if ch == Delimiter then [] else [ch] + Unshift(d[1..], shift)
  }

  /** What CaesarCypher.decode returns; the stop chunk is the shifted delimiter's. */
  function CaesarDecoded(data: seq<Bit>, shift: int): (r: seq<CodePoint>)
    ensures forall i :: 0 <= i < |r| ==> r[i] != Delimiter
    ensures 8 * |r| <= |data| + 7
  {
    Unshift(DecodeUntil(data, CaesarEncoded([Delimiter], shift)), shift)
  }

  /**
   * CaesarCypher.decode. `super().decode(data)` compares chunks with
   * `self.encode(self.delimiter)`, which is CaesarCypher.encode: the
   * stop chunk is the shifted delimiter.
   */
  method CaesarDecode(data: seq<Bit>, shift: int) returns (text: seq<CodePoint>)
    ensures text == CaesarDecoded(data, shift)
  {
    var stop := CaesarEncode([Delimiter], shift);
    var d := Decode(data, stop);
    text := UnshiftLoop(d, shift);
  }

  /** The second loop of CaesarCypher.decode: unshift each character, stopping at the first '#'. */
  method UnshiftLoop(d: seq<CodePoint>, shift: int) returns (text: seq<CodePoint>)
    ensures text == Unshift(d, shift)
  {
    text := [];
    var i := 0;
    while i < |d|
      invariant i <= |d| && i <= |Unshift(d, shift)|
      invariant text == Unshift(d, shift)[..i]
    {
      var ch := ShiftChar(d[i], -shift);
      if ch == Delimiter {
        break;
      }
      text := text + [ch];
      i := i + 1;
    }
  }

  lemma {:induction false} UnshiftShift(m: seq<CodePoint>, shift: int)
    requires Delimiter !in m
    ensures Unshift(ShiftText(m, shift), shift) == m
  {
    if m != [] {
      ShiftInverse(m[0], shift);
      assert ShiftText(m, shift)[1..] == ShiftText(m[1..], shift);
      UnshiftShift(m[1..], shift);
      assert m == [m[0]] + m[1..];
    }
  }

  /** Round trip of CaesarCypher: decode(encode(m + '#') + extra) == m when m has no '#'. */
  lemma CaesarDecodeEncode(m: seq<CodePoint>, shift: int, extra: seq<Bit>)
    requires Delimiter !in m
    ensures CaesarDecoded(CaesarEncoded(m + [Delimiter], shift) + extra, shift) == m
  {
    var sd := ShiftChar(Delimiter, shift);
    var sm := ShiftText(m, shift);
    var stop := Byte(sd);
    assert ShiftText([Delimiter], shift) == [sd];
    EncodeSingle(sd);
    assert ShiftText(m + [Delimiter], shift) == sm + [sd];
    ShiftAvoids(m, shift);
    BytesAvoid(sm, sd);
    EncodeAppend(sm, [sd]);
    assert CaesarEncoded(m + [Delimiter], shift) + extra == Encode(sm) + (stop + extra);
    DecodeUpToStop(sm, stop, extra);
    UnshiftShift(m, shift);
  }

  /** A text without '#' has no shifted '#' once shifted. */
  lemma ShiftAvoids(m: seq<CodePoint>, shift: int)
    requires Delimiter !in m
    ensures ShiftChar(Delimiter, shift) !in ShiftText(m, shift)
  {
    forall k | 0 <= k < |m| ensures ShiftText(m, shift)[k] != ShiftChar(Delimiter, shift) {
      ShiftInjective(m[k], Delimiter, shift);
    }
  }
}
