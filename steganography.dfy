/**
 * Least-significant-bit steganography over an image held in memory.
 *
 * The image is a rows x cols x 3 array of 8-bit channel values. Bit i of
 * a message goes to the low bit of channel i % 3 of the pixel at row
 * i / (cols * 3), column (i / 3) % cols: slot i. The slots enumerate every
 * channel of the image exactly once, row by row.
 */
module Pixels {
  import opened Bits

  /** The low bit of a channel value (`value & 1`). */
  function LowBit(v: bv8): Bit
  {
    (v & 1) as int
  }

  /** `(value & 254) | bit`: the channel value with its low bit replaced. */
  function SetLow(v: bv8, bit: Bit): (r: bv8)
    ensures LowBit(r) == bit
    ensures r & 254 == v & 254
  {
    var r := (v & 254) | (bit as bv8);
    assert r & 1 == bit as bv8;
    r
  }

  lemma MulAtLeast(d: int, k: int)
    requires d > 0
    ensures k >= 1 ==> d * k >= d
    ensures k <= -1 ==> d * k <= -d
  {
  }

  /** Quotient and remainder are determined by any decomposition i == d * a + s with 0 <= s < d. */
  lemma DivUnique(i: int, d: int, a: int, s: int)
    requires d > 0 && 0 <= s < d && i == d * a + s
    ensures i / d == a && i % d == s
  {
    var q := i / d;
    var r := i % d;
    assert d * (a - q) == r - s;
    MulAtLeast(d, a - q);
  }

  /** A quotient bound: d * a + s < d * n with s >= 0 forces a < n. */
  lemma QuotientBelow(d: int, a: int, s: int, n: int)
    requires d > 0 && s >= 0 && d * a + s < d * n
    ensures a < n
  {
    assert d * (n - a) == d * n - d * a;
    MulAtLeast(d, n - a);
  }

  /** The number of slots (bits) an image holds. */
  function Capacity(rows: nat, cols: nat): nat
  {
    rows * cols * 3
  }

  function Row(i: nat, cols: nat): int
    requires cols > 0
  {
    i / (cols * 3)
  }

  function Col(i: nat, cols: nat): nat
    requires cols > 0
  {
    i / 3 % cols
  }

  function Channel(i: nat): nat
  {
    i % 3
  }

  /** Slot i lies inside the image, and reading its coordinates row by row gives i back. */
  lemma SlotInside(i: nat, rows: nat, cols: nat)
    requires i < Capacity(rows, cols)
    ensures cols > 0
    ensures 0 <= Row(i, cols) < rows && Col(i, cols) < cols && Channel(i) < 3
    ensures Row(i, cols) * (cols * 3) + Col(i, cols) * 3 + Channel(i) == i
  {
    assert cols == 0 ==> Capacity(rows, cols) == 0;
    var q := i / 3;
    var a := q / cols;
    var b := q % cols;
    assert q == cols * a + b;
    assert i == (cols * 3) * a + (3 * b + i % 3);
    DivUnique(i, cols * 3, a, 3 * b + i % 3);
    assert Capacity(rows, cols) == (cols * 3) * rows;
    QuotientBelow(cols * 3, a, 3 * b + i % 3, rows);
  }

  /** Different slots are different channels of the image. */
  lemma SlotsDistinct(i: nat, j: nat, rows: nat, cols: nat)
    requires i < Capacity(rows, cols) && j < Capacity(rows, cols) && i != j
    ensures cols > 0
    ensures (Row(i, cols), Col(i, cols), Channel(i)) != (Row(j, cols), Col(j, cols), Channel(j))
  {
    SlotInside(i, rows, cols);
    SlotInside(j, rows, cols);
  }

  /** Every channel of the image is a slot: the slot of (r, c, ch) lies inside and has those coordinates. */
  lemma SlotOf(r: nat, c: nat, ch: nat, rows: nat, cols: nat)
    requires r < rows && c < cols && ch < 3
    ensures r * (cols * 3) + c * 3 + ch < Capacity(rows, cols)
    ensures Row(r * (cols * 3) + c * 3 + ch, cols) == r
    ensures Col(r * (cols * 3) + c * 3 + ch, cols) == c
    ensures Channel(r * (cols * 3) + c * 3 + ch) == ch
  {
    var i := r * (cols * 3) + c * 3 + ch;
    DivUnique(i, cols * 3, r, c * 3 + ch);
    assert i == 3 * (r * cols + c) + ch;
    DivUnique(i, 3, r * cols + c, ch);
    DivUnique(r * cols + c, cols, r, c);
    MulAtLeast(cols * 3, rows - r);
    assert (cols * 3) * (rows - r) == Capacity(rows, cols) - r * (cols * 3);
  }

  /** The channel value at slot i. */
  function At(image: array3<bv8>, i: nat): bv8
    requires image.Length2 == 3 && i < Capacity(image.Length0, image.Length1)
    reads image
  {
    SlotInside(i, image.Length0, image.Length1);
    image[Row(i, image.Length1), Col(i, image.Length1), Channel(i)]
  }

  /** The low bits of every slot, in slot order: what the decoder reads out of an image. */
  function Lsbs(image: array3<bv8>): (r: seq<Bit>)
    requires image.Length2 == 3
    reads image
    ensures |r| == Capacity(image.Length0, image.Length1)
    ensures forall i :: 0 <= i < |r| ==> r[i] == LowBit(At(image, i))
  {
    seq(Capacity(image.Length0, image.Length1),
        i requires 0 <= i < Capacity(image.Length0, image.Length1) && image.Length2 == 3 reads image
          => LowBit(At(image, i)))
  }

  /**
   * The embedding loop of Steganography.encode: bit i replaces the low bit
   * of slot i. The low bits of the first |bits| slots are then the message,
   * every slot keeps its upper seven bits, and the slots after the message
   * are untouched.
   */
  method WriteBits(image: array3<bv8>, bits: seq<Bit>)
    requires image.Length2 == 3 && |bits| <= Capacity(image.Length0, image.Length1)
    modifies image
    ensures Lsbs(image)[..|bits|] == bits
    ensures forall i :: 0 <= i < |bits| ==> At(image, i) == SetLow(old(At(image, i)), bits[i])
    ensures forall i :: |bits| <= i < Capacity(image.Length0, image.Length1) ==> At(image, i) == old(At(image, i))
  {
    ghost var cap := Capacity(image.Length0, image.Length1);
    for i := 0 to |bits|
      invariant forall j :: 0 <= j < i ==> At(image, j) == SetLow(old(At(image, j)), bits[j])
      invariant forall j :: i <= j < cap ==> At(image, j) == old(At(image, j))
    {
      var bit := bits[i];
      var rowCt := image.Length1;
      SlotInside(i, image.Length0, rowCt);
      label Before:
      image[i / (rowCt * 3), i / 3 % rowCt, i % 3] := SetLow(image[i / (rowCt * 3), i / 3 % rowCt, i % 3], bit);
      forall j | 0 <= j < cap && j != i
        ensures At(image, j) == old@Before(At(image, j))
      {
        SlotsDistinct(i, j, image.Length0, rowCt);
      }
    }
    assert forall i :: 0 <= i < |bits| ==> Lsbs(image)[i] == bits[i];
  }

  /** The reading loop of Steganography.decode: the low bit of every slot, in slot order. */
  method ReadBits(image: array3<bv8>) returns (bits: seq<Bit>)
    requires image.Length2 == 3
    ensures bits == Lsbs(image)
  {
    var maxBits := image.Length0 * image.Length1 * 3;
    bits := [];
    for i := 0 to maxBits
      invariant bits == Lsbs(image)[..i]
    {
      var row := image.Length1;
      SlotInside(i, image.Length0, row);
      bits := bits + [LowBit(image[i / (row * 3), i / 3 % row, i % 3])];
    }
  }
}

/**
 * The Steganography object: it remembers the last message it embedded or
 * extracted (`text`), the bit string that carried it (`binary`) and the
 * codec it last used. Reading and writing image files, and the printing,
 * are outside the model: encode and decode take the image array itself.
 */
module Steganography {
  import opened Bits
  import Codec
  import opened HuffmanTree
  import opened HuffmanBuild
  import opened Huffman
  import opened Pixels

  /** The codec argument: the three names the source recognises, and any other string. */
  datatype CodecName = BinaryName | CaesarName | HuffmanName | OtherName

  /** The codec attribute: None, or a codec object (a Huffman codec carries its tree). */
  datatype CodecSlot = NoCodec | BinaryCodec | CaesarCodec(shift: int) | HuffmanCodec(h: HuffmanCodes)

  /** Done: the image was written or read. Rejected: the message does not fit, or no Huffman tree is set. Failed: there is no codec to call. */
  datatype Outcome = Done | Rejected | Failed

  /**
   * The capacity check of encode: max_bytes is the number of whole bytes
   * the image holds, and a message of n bits needs n // 8 + 1 of them.
   */
  function Fits(n: nat, rows: nat, cols: nat): (ok: bool)
    ensures ok <==> n < Capacity(rows, cols) - Capacity(rows, cols) % 8
    ensures ok ==> n < Capacity(rows, cols)
  {
    var maxBytes := Capacity(rows, cols) / 8;
    var numBytes := n / 8 + 1;
    !(numBytes > maxBytes)
  }

  /** The codec the name selects for encode and decode; a Huffman name or an unknown one keeps the current codec. */
  function Selected(name: CodecName, current: CodecSlot): CodecSlot
  {
    match name
    case BinaryName => BinaryCodec
    case CaesarName => CaesarCodec(Codec.DefaultShift)
    case HuffmanName => current
    case OtherName => current
  }

  /** The bits a codec's encode returns for text. */
  function Embedded(codec: CodecSlot, text: seq<CodePoint>): seq<Bit>
  {
    match codec
    case NoCodec => []
    case BinaryCodec => Codec.Encode(text)
    case CaesarCodec(shift) => Codec.CaesarEncoded(text, shift)
    case HuffmanCodec(_) => Encoded(text)
  }

  /** The text a codec's decode returns for bits; a Huffman codec walks its current tree. */
  function Decoded(codec: CodecSlot, bits: seq<Bit>): seq<CodePoint>
    requires codec.HuffmanCodec? ==> codec.h.Ready()
    reads if codec.HuffmanCodec? then {codec.h} else {}
  {
    match codec
    case NoCodec => []
    case BinaryCodec => Codec.DecodeUntil(bits, Codec.Encode([Delimiter]))
    case CaesarCodec(shift) => Codec.CaesarDecoded(bits, shift)
    case HuffmanCodec(h) => Walk(h.nodes.value[0], bits, h.nodes.value[0], [])
  }

  /**
   * Round trip through an image: if the low bits of the image start with
   * what a codec embedded for m + '#' and go on for at least one more bit,
   * the same codec (for Huffman, holding the tree built for m + '#')
   * extracts m. The capacity check guarantees that extra bit.
   */
  lemma EmbedExtract(codec: CodecSlot, m: seq<CodePoint>, lsbs: seq<Bit>)
    requires codec != NoCodec && Delimiter !in m
    requires codec.HuffmanCodec? ==> codec.h.nodes == Some(Tree(m + [Delimiter]))
    requires |Embedded(codec, m + [Delimiter])| < |lsbs|
    requires lsbs[..|Embedded(codec, m + [Delimiter])|] == Embedded(codec, m + [Delimiter])
    ensures (codec.HuffmanCodec? ==> codec.h.Ready()) && Decoded(codec, lsbs) == m
  {
    var bits := Embedded(codec, m + [Delimiter]);
    var extra := lsbs[|bits|..];
    assert lsbs == bits + extra;
    match codec
    case BinaryCodec =>
      Codec.DecodeEncode(m, extra);
    case CaesarCodec(shift) =>
      Codec.CaesarDecodeEncode(m, shift, extra);
    case HuffmanCodec(h) =>
      HuffmanRoundTrip(m, extra);
  }

  /** `codec.encode(text)`, dispatched on the codec held. */
  method EncodeWith(codec: CodecSlot, text: seq<CodePoint>) returns (bits: seq<Bit>)
    requires codec != NoCodec
    modifies if codec.HuffmanCodec? then {codec.h} else {}
    ensures bits == Embedded(codec, text)
    ensures codec.HuffmanCodec? ==> codec.h.nodes == Some(Tree(text)) && codec.h.data == FillData(text)
  {
    match codec {
      case BinaryCodec =>
        bits := Codec.Encode(text);
      case CaesarCodec(shift) =>
        bits := Codec.CaesarEncode(text, shift);
      case HuffmanCodec(h) =>
        bits := h.Encode(text);
    }
  }

  /** `codec.decode(bits)`, dispatched on the codec held. */
  method DecodeWith(codec: CodecSlot, bits: seq<Bit>) returns (text: seq<CodePoint>)
    requires codec != NoCodec && (codec.HuffmanCodec? ==> codec.h.Ready())
    ensures text == Decoded(codec, bits)
  {
    match codec {
      case BinaryCodec =>
        text := Codec.Decode(bits, Codec.Encode([Delimiter]));
      case CaesarCodec(shift) =>
        text := Codec.CaesarDecode(bits, shift);
      case HuffmanCodec(h) =>
        var r := h.Decode(bits);
        text := r.value;
    }
  }

  class Steganography {
    var text: seq<CodePoint>
    var binary: seq<Bit>
    var codec: CodecSlot

    constructor ()
      ensures text == [] && binary == [] && codec == NoCodec
    {
      text := [];
      binary := [];
      codec := NoCodec;
    }

    /** The Huffman codec object this one holds, if any. */
    function Huffmans(): set<object>
      reads this
    {
      if codec.HuffmanCodec? then {codec.h} else {}
    }

    /** A Huffman codec held here has a tree built from a text ending in '#', so its decode terminates. */
    predicate Valid()
      reads this, Huffmans()
    {
      codec.HuffmanCodec? ==> codec.h.Ready()
    }

    /**
     * encode: selects the codec, encodes message + '#', and, when the bits
     * fit, records message and bits and writes the bits into the low bits
     * of the image. With an unknown codec name and no codec set there is
     * nothing to encode with.
     */
    method Encode(image: array3<bv8>, message: seq<CodePoint>, name: CodecName) returns (outcome: Outcome)
      requires Valid() && image.Length2 == 3
      modifies this, image, Huffmans()
      ensures Valid()
      ensures name != HuffmanName ==> codec == Selected(name, old(codec))
      ensures name == HuffmanName ==> codec.HuffmanCodec? && fresh(codec.h)
      ensures outcome == Failed <==> codec == NoCodec
      ensures outcome != Done ==> text == old(text) && binary == old(binary) && unchanged(image)
      ensures codec.HuffmanCodec? ==> codec.h.nodes == Some(Tree(message + [Delimiter]))
      ensures codec != NoCodec ==>
        (outcome == Done <==> Fits(|Embedded(codec, message + [Delimiter])|, image.Length0, image.Length1))
      ensures outcome == Done ==> text == message && binary == Embedded(codec, message + [Delimiter])
      ensures outcome == Done ==> |binary| < Capacity(image.Length0, image.Length1) && Lsbs(image)[..|binary|] == binary
      ensures outcome == Done ==> forall i :: 0 <= i < Capacity(image.Length0, image.Length1) ==>
        At(image, i) & 254 == old(At(image, i)) & 254 && (i >= |binary| ==> At(image, i) == old(At(image, i)))
    {
      SelectEncoder(name);
      if codec == NoCodec {
        return Failed;
      }
      outcome := EncodeSelected(image, message);
    }

    /** encode once a codec is selected: encode message + '#' with it, then the capacity check and the write. */
    method EncodeSelected(image: array3<bv8>, message: seq<CodePoint>) returns (outcome: Outcome)
      requires codec != NoCodec && image.Length2 == 3
      modifies this`text, this`binary, image, Huffmans()
      ensures Valid()
      ensures outcome == Done || outcome == Rejected
      ensures outcome == Rejected ==> text == old(text) && binary == old(binary) && unchanged(image)
      ensures codec.HuffmanCodec? ==> codec.h.nodes == Some(Tree(message + [Delimiter]))
      ensures outcome == Done <==> Fits(|Embedded(codec, message + [Delimiter])|, image.Length0, image.Length1)
      ensures outcome == Done ==> text == message && binary == Embedded(codec, message + [Delimiter])
      ensures outcome == Done ==> |binary| < Capacity(image.Length0, image.Length1) && Lsbs(image)[..|binary|] == binary
      ensures outcome == Done ==> forall i :: 0 <= i < Capacity(image.Length0, image.Length1) ==>
        At(image, i) & 254 == old(At(image, i)) & 254 && (i >= |binary| ==> At(image, i) == old(At(image, i)))
    {
      var bits := EncodeWith(codec, message + [Delimiter]);
      TreeDecodable(message + [Delimiter]);
      assert Valid();
      outcome := Embed(image, message, bits);
    }

    /** The codec selection of encode: a Huffman name always gets a new, empty Huffman codec. */
    method SelectEncoder(name: CodecName)
      modifies this`codec
      ensures name != HuffmanName ==> codec == Selected(name, old(codec))
      ensures name == HuffmanName ==> codec.HuffmanCodec? && fresh(codec.h) && codec.h.nodes == None && codec.h.data == []
    {
      match name {
        case BinaryName => codec := BinaryCodec;
        case CaesarName => codec := CaesarCodec(Codec.DefaultShift);
        case HuffmanName =>
          var h := new HuffmanCodes();
          codec := HuffmanCodec(h);
        case OtherName =>
      }
    }

    /**
     * The rest of encode once the bits are known: the capacity check, and
     * when the bits fit, recording message and bits and writing the bits
     * into the image.
     */
    method Embed(image: array3<bv8>, message: seq<CodePoint>, bits: seq<Bit>) returns (outcome: Outcome)
      requires image.Length2 == 3
      modifies this`text, this`binary, image
      ensures outcome == Done || outcome == Rejected
      ensures outcome == Done <==> Fits(|bits|, image.Length0, image.Length1)
      ensures outcome == Rejected ==> text == old(text) && binary == old(binary) && unchanged(image)
      ensures outcome == Done ==> text == message && binary == bits
      ensures outcome == Done ==> |bits| < Capacity(image.Length0, image.Length1) && Lsbs(image)[..|bits|] == bits
      ensures outcome == Done ==> forall i :: 0 <= i < Capacity(image.Length0, image.Length1) ==>
        At(image, i) & 254 == old(At(image, i)) & 254 && (i >= |bits| ==> At(image, i) == old(At(image, i)))
    {
      var maxBytes := image.Length0 * image.Length1 * 3 / 8;
      var numBytes := |bits| / 8 + 1;
      if numBytes > maxBytes {
        return Rejected;
      }
      text := message;
      binary := bits;
      WriteBits(image, bits);
      return Done;
    }

    /**
     * decode: selects the codec (a Huffman name needs the Huffman codec of
     * an earlier encode, otherwise nothing happens), reads the low bit of
     * every slot, and decodes them. With an unknown codec name and no codec
     * set there is nothing to decode with.
     */
    method Decode(image: array3<bv8>, name: CodecName) returns (outcome: Outcome)
      requires Valid() && image.Length2 == 3
      modifies this
      ensures Valid()
      ensures outcome == Rejected <==> name == HuffmanName && !old(codec).HuffmanCodec?
      ensures outcome == Failed <==> name == OtherName && old(codec) == NoCodec
      ensures outcome != Done ==> text == old(text) && binary == old(binary) && codec == old(codec)
      ensures outcome == Done ==> codec == Selected(name, old(codec))
      ensures outcome == Done ==> binary == Lsbs(image) && text == Decoded(codec, binary)
    {
      match name {
        case BinaryName => codec := BinaryCodec;
        case CaesarName => codec := CaesarCodec(Codec.DefaultShift);
        case HuffmanName =>
          if !codec.HuffmanCodec? {
            return Rejected;
          }
        case OtherName =>
      }
      if codec == NoCodec {
        return Failed;
      }
      var bits := ReadBits(image);
      text := DecodeWith(codec, bits);
      binary := bits;
      return Done;
    }
  }
}
