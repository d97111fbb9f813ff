# Cryptography: codecs and LSB steganography, in Dafny

A model of the two core files of GrahamKlingler/Cryptography, with proofs about it.

**codec.py** turns text into a string of bits and back, with three codecs:

- `Codec` writes each character as its eight-bit code, most significant bit first. Decoding reads 8-bit chunks up to the chunk that encodes the delimiter `#`.
- `CaesarCypher` shifts every code point by `shift` modulo 256, then reuses `Codec`. Decoding compares chunks with `self.encode('#')`. That call is dispatched on the receiver, so decoding stops at the *shifted* delimiter's chunk.
- `HuffmanCodes` builds a tree from the text in three steps:
  1. counts the characters;
  2. stable-sorts the counts, largest first;
  3. repeatedly stable-sorts the node list by frequency and merges its first two nodes.

  A character's code is its path in that tree. Decoding walks the tree with a bit cursor and a node cursor.

**steganography.py** hides a message's bits in an image:

- The image is a rows × cols × 3 array of 8-bit channel values.
- Bit i replaces the low bit of channel i % 3 of the pixel at row i // (cols·3), column (i // 3) % cols ("slot i").
- Encode checks capacity first. Decode reads every slot's low bit and decodes them with the selected codec.
- Huffman decoding needs the codec, with its tree, left behind by an earlier Huffman encode.

Module layout:

- `bits.dfy` (`Bits`): bits, code points and the 8-bit code.
- `seqs.dfy` (`Seqs`): small facts about sequence concatenation used by the Huffman proofs.
- `codec.dfy` (`Codec`): `Codec` and `CaesarCypher`.
- `sorting.dfy` (`Sorting`): Python's stable `sorted`.
- `huffman_build.dfy` (`HuffmanBuild`): `fill_data` and `make_tree` as values.
- `huffman_tree.dfy` (`HuffmanTree`): the `Node` datatype, `find_code`, and the decode walk.
- `huffman.dfy` (`Huffman`): the `HuffmanCodes` class, with its loops as methods.
- `steganography.dfy`:
  - `Pixels`: the slot map, and the write and read loops on an `array3<bv8>`;
  - `Steganography`: the `Steganography` class.

Characters are code points 0..255. Bits are the integers 0 and 1.

The source is specified by value-level functions (`DecodeUntil`, `CaesarDecoded`, `Tree`, `Codes`, `Walk`, `Lsbs`). Each loop is a method proved equal to its function, and the properties are lemmas about those functions. The one exception is the write loop `Pixels.WriteBits`: it has no function, and its contract describes the new image slot by slot. The low bit of slot i becomes bit i, every slot keeps its upper seven bits, and the slots past the bits are unchanged.

The model follows the code where a reader might expect something else:

- **Short trailing chunk:** when no delimiter chunk occurs, `Codec.decode` converts the trailing chunk of fewer than 8 bits with `int(byte, 2)` rather than dropping it (`Codec.DecodeKeepsShortTail`).
- **Capacity check:** a message of n bits is accepted exactly when n // 8 + 1 <= (rows·cols·3) // 8, that is n < cap − cap % 8, where cap = rows·cols·3 (`Steganography.Fits`). It is not "whenever n bits fit".
- **Huffman decode bound:** the loop runs while `p < len(data) - 1`, and the model keeps that bound. The round trip needs at least one bit after the encoded message; in the image the capacity check always leaves one. Decoding exactly the encoded bits loses the last character whenever `#` has a one-bit code (`Huffman.HuffmanDropsLast`, `HuffmanExample.DropsLastExample`).

## Model

| member | source | states |
|---|---|---|
| Bits.Byte | codec.py:15 | `format(ord(c), "08b")` is exactly eight bits |
| Bits.ByteRoundTrip | codec.py:15 | reading the eight bits back with `int(_, 2)` gives the code point |
| Bits.ByteInjective | codec.py:15 | two code points have the same 8-bit form iff they are equal |
| Bits.Value | codec.py:30 | `int(bits, 2)` of an n-bit string is below 2^n |
| Codec.Encode | codec.py:13-15 | `Codec.encode` yields exactly 8·len(text) bits |
| Codec.EncodeChunk | codec.py:13-15 | chunk k of the encoding is the 8-bit big-endian form of text[k] |
| Codec.EncodeAppend | codec.py:15 | encoding a concatenation is the concatenation of the encodings |
| Codec.Collect | codec.py:21-27 | the chunks decode keeps have 1 to 8 bits each, none equals the stop chunk, and there are at most ⌈len(data)/8⌉ of them |
| Codec.DecodeUntil | codec.py:20-31 | `Codec.decode` yields one character per kept chunk, so at most ⌈len(data)/8⌉ characters |
| Codec.CollectChunks | codec.py:21-27 | the first loop of decode collects the 8-bit chunks (the last may be shorter) before the first chunk equal to the stop chunk |
| Codec.Decode | codec.py:20-31 | decode returns `chr(int(chunk, 2))` of every collected chunk, in order |
| Codec.FirstChunk | codec.py:23-27 | a leading full chunk either is the stop chunk (decoding ends) or contributes its character before the rest is decoded |
| Codec.DecodeEncodePrefix | codec.py:20-31 | decoding the encoding of a text none of whose characters encodes to the stop chunk yields that text, then decodes what follows |
| Codec.DecodeEncode | codec.py:13-31 | decode(encode(m + '#') + any bits) == m for every m without '#' |
| Codec.DecodeKeepsShortTail | codec.py:23-30 | a trailing chunk of 1..7 bits is converted with `int(_, 2)`, not dropped |
| Codec.ShiftChar | codec.py:42-49 | `c_shift(c, shift) % 256`, with `c_shift` adding the shift to the code point, is the code point congruent to c + shift modulo 256 |
| Codec.ShiftInverse | codec.py:42-60 | shifting by `shift` then by `-shift`, each modulo 256, restores every code point, for every integer shift |
| Codec.ShiftInjective | codec.py:49 | the shift modulo 256 maps distinct code points to distinct code points |
| Codec.CaesarEncode | codec.py:46-52 | 8 bits per character; chunk k is the 8-bit form of (text[k] + shift) % 256 |
| Codec.Unshift | codec.py:59-63 | the result unshifts a prefix of the decoded characters, none of them '#', and stops exactly at the first character that unshifts to '#' (or at the end) |
| Codec.UnshiftLoop | codec.py:59-63 | the unshift loop of `CaesarCypher.decode`, with its break on '#', computes `Unshift` |
| Codec.CaesarDecoded | codec.py:56-64 | `CaesarCypher.decode` never returns a '#' and returns at most ⌈len(data)/8⌉ characters |
| Codec.CaesarDecode | codec.py:56-64 | decodes up to the *shifted* delimiter's chunk (the dispatched `self.encode`), unshifts, and stops at an unshifted '#' |
| Codec.UnshiftShift | codec.py:59-63 | unshifting a shifted text without '#' restores it whole |
| Codec.ShiftAvoids | codec.py:49 | a text without '#' contains no shifted '#' once shifted |
| Codec.CaesarDecodeEncode | codec.py:46-64 | Caesar decode(encode(m + '#') + any bits) == m for every m without '#' and every shift |
| Sorting.SortByPermutes | codec.py:98 | `sorted` returns a permutation of its input |
| Sorting.SortBySorted | codec.py:98 | `sorted(key=...)` returns the elements in ascending key order |
| Sorting.SortByStable | codec.py:86 | `sorted` is stable: the elements with any one key keep their relative order |
| HuffmanBuild.Tally | codec.py:85 | `Counter(text)` has at most len(text) entries, none for the empty text, and every count is at least 1 |
| HuffmanBuild.FillData | codec.py:84-86 | fill_data has one entry per Counter entry, at most len(text), and none exactly for the empty text |
| HuffmanBuild.TallyKeys | codec.py:85 | `Counter` lists each distinct character once, in order of first occurrence |
| HuffmanBuild.TallyLookup | codec.py:85 | the count recorded for a character is its number of occurrences |
| HuffmanBuild.TallyCounts | codec.py:85 | every entry of the count table holds its character's number of occurrences |
| HuffmanBuild.TallySum | codec.py:85 | the counts add up to the length of the text |
| HuffmanBuild.DistinctOnce | codec.py:85 | the first-occurrence list holds each character of the text exactly once and nothing else |
| HuffmanBuild.FillDataFacts | codec.py:84-86 | fill_data: counts in descending order, each correct, each character once, summing to len(text) |
| HuffmanBuild.FillDataStable | codec.py:86 | characters with equal counts keep Counter's first-occurrence order |
| HuffmanBuild.LeavesSnoc | codec.py:91-92 | the leaf loop appends one leaf (freq = count, symbol = character) per fill_data entry, in order |
| HuffmanBuild.LeavesFacts | codec.py:91-92 | each leaf is a well-formed node carrying its character's count; the leaves' symbols are the fill_data keys and their frequencies add up to the counts |
| HuffmanBuild.Merge | codec.py:103-105 | merging two well-formed nodes gives a well-formed node: every internal node's freq is the sum, and its symbol the left-first concatenation, of its children's |
| HuffmanBuild.Step | codec.py:95-110 | one round of the merging loop removes exactly one node from the list |
| HuffmanBuild.MergeGood | codec.py:103-105 | the parent's freq is the sum and its symbol the concatenation (left first) of its children's |
| HuffmanBuild.StepMergesLowest | codec.py:97-110 | a round sorts the nodes stably by frequency, merges the two lowest-frequency nodes and appends the parent after the remaining sorted nodes |
| HuffmanBuild.StepGood | codec.py:95-110 | a round keeps every node well formed with correct leaf counts |
| HuffmanBuild.StepSymbols | codec.py:103-110 | a round keeps the multiset of characters spread over the nodes' symbols |
| HuffmanBuild.StepSum | codec.py:103-110 | a round keeps the total frequency |
| HuffmanBuild.BuildFacts | codec.py:95-112 | the merging loop ends with one node (none for no nodes), keeping well-formedness, the characters and the total frequency |
| HuffmanBuild.Build | codec.py:95-112 | the merging loop ends with exactly one node, or none when it starts with none |
| HuffmanBuild.Tree | codec.py:88-112 | make_tree returns one node for a non-empty text and none for the empty text |
| HuffmanBuild.TreeShape | codec.py:88-112 | make_tree on non-empty text gives one well-formed root: freq == len(text), every distinct character in exactly one leaf carrying its count; on empty text an empty list |
| HuffmanBuild.TreeDecodable | codec.py:88-112 | a text containing '#' yields a root that is a branch or the '#' leaf and whose symbol contains '#' |
| HuffmanTree.SymbolSize | codec.py:68-74 | a well-formed node is a leaf iff its symbol has length 1 |
| HuffmanTree.FindCode | codec.py:127-136 | for any key, find_code returns a path that stays inside the tree and is no longer than its height |
| HuffmanTree.FindCodePath | codec.py:127-136 | find_code(root, c) for c in the tree is a path that ends at the leaf of c; it is empty iff the root is a single leaf |
| HuffmanTree.FindCodeStep | codec.py:129-134 | at a branch, find_code tests the right child's symbol first and prepends the bit of the child taken |
| HuffmanTree.PrefixFree | codec.py:127-136 | the codes of two different characters of a tree are never prefixes of one another |
| HuffmanTree.Codes | codec.py:143-146 | a one-leaf tree encodes every text to no bits; otherwise the encoding has at most len(text) × height bits |
| HuffmanTree.CodesAppend | codec.py:143-146 | the encoding of a concatenation is the concatenation of the encodings |
| HuffmanTree.Walk | codec.py:158-172 | the decode loop only appends to the text produced so far, and nothing it appends is '#' |
| HuffmanTree.Descend | codec.py:158-172 | walking a character's code from the root ends at its leaf; the leaf then stops the loop ('#', or one bit left) or emits the character and restarts at the root |
| HuffmanTree.DecodeRoundTrip | codec.py:154-173 | decoding the codes of m + '#' plus at least one more bit yields m, for m without '#' in the tree |
| HuffmanTree.DecodeDropsLast | codec.py:160 | with a one-bit code for '#' and no extra bits, decoding the codes of m + '#' yields m without its last character |
| Huffman.HuffmanCodes.constructor | codec.py:78-82 | a new Huffman codec has no tree and an empty count table |
| Huffman.HuffmanCodes.MakeTree | codec.py:88-112 | the leaf loop and the merging loop compute `Tree(text)` and record fill_data(text) |
| Huffman.HuffmanCodes.Encode | codec.py:139-151 | stores the tree of text in `nodes` and returns the concatenated codes of its characters |
| Huffman.HuffmanCodes.Decode | codec.py:154-173 | the decode loop computes `Walk` over the bits from the stored root; no tree (no encode yet, or an empty one) is an error |
| Huffman.Encoded | codec.py:139-151 | encode of a text with a single distinct character returns no bits; with two or more, every character costs at least one bit |
| Huffman.TreeCovers | codec.py:88-112 | the root's symbol contains exactly the characters of the text |
| Huffman.HuffmanRoundTrip | codec.py:139-173 | decode(encode(m + '#') + at least one bit) == m for every m without '#' |
| Huffman.HuffmanDropsLast | codec.py:154-173 | decode(encode(m + '#')) with no extra bit loses the last character of m when '#' has a one-bit code |
| HuffmanExample.ExampleCounts | codec.py:84-86 | fill_data("a#") is [('a', 1), ('#', 1)] |
| HuffmanExample.ExampleTree | codec.py:88-112 | make_tree("a#") is one branch with 'a' (code 0) on the left and '#' (code 1) on the right |
| HuffmanExample.DropsLastExample | codec.py:139-173 | "a#" encodes to 01, and decoding 01 yields the empty text |
| Pixels.SetLow | steganography.py:47 | `(v & 254) \| bit` has low bit `bit` and the upper seven bits of v |
| Pixels.SlotInside | steganography.py:46 | every slot below rows·cols·3 addresses a channel inside the image, and row·cols·3 + col·3 + channel gives the slot back |
| Pixels.SlotsDistinct | steganography.py:46 | different slots address different channels |
| Pixels.SlotOf | steganography.py:46 | every channel of the image is addressed by a slot |
| Pixels.WriteBits | steganography.py:43-47 | after the loop, the low bit of slot i is bit i; every slot keeps its upper seven bits; slots past the message are unchanged |
| Pixels.ReadBits | steganography.py:67-73 | the loop reads exactly rows·cols·3 bits, bit i being the low bit of slot i |
| Steganography.Fits | steganography.py:23-36 | the message is accepted iff len // 8 + 1 <= max_bytes, i.e. len < cap − cap % 8, so every written slot is inside the image |
| Steganography.EncodeWith | steganography.py:32 | `self.codec.encode` dispatched on the codec held; a Huffman codec stores the tree of its text |
| Steganography.DecodeWith | steganography.py:75 | `self.codec.decode` dispatched on the codec held |
| Steganography.EmbedExtract | steganography.py:32-75 | bits read back from an image whose low bits start with a codec's encoding of m + '#' and go on for at least one more bit decode, with the same codec, to m |
| Steganography.Steganography.constructor | steganography.py:12-16 | a new object has empty text and binary and no codec |
| Steganography.Steganography.SelectEncoder | steganography.py:26-31 | 'binary' and 'caesar' set a new codec, 'huffman' a new Huffman codec with no tree and no counts, an unknown name keeps the current one |
| Steganography.Steganography.Embed | steganography.py:35-47 | on rejection nothing changes; otherwise text and binary are set, the low bit of slot i becomes bit i, every slot keeps its upper seven bits, and slots past the bits are unchanged |
| Steganography.Steganography.Encode | steganography.py:18-49 | selects the codec, encodes message + '#', and writes it iff it fits; on rejection text, binary and image are unchanged; with no codec nothing changes; when written, slots past the message keep their value |
| Steganography.Steganography.EncodeSelected | steganography.py:32-47 | with a codec selected: the Huffman codec stores the tree of message + '#', the bits are written iff they fit, and the image changes exactly as in `Embed` |
| Steganography.Steganography.Decode | steganography.py:51-76 | a Huffman name without a stored Huffman codec changes nothing; otherwise binary is every slot's low bit and text its decoding |

## Left out

- File I/O and display are not modelled: `cv2.imread`, `cv2.imwrite`, `plt.imshow` and `mpimg.imread` (`show`). Encode and decode take the image array itself, and encode changes it in place.
- The `print` diagnostics and `Steganography.print` are not modelled. Where a print marks an error, the model returns an outcome instead: `Rejected` or `Failed` in the Steganography class, `None` from Huffman decode.
- `traverse_tree` is a debugging printer, and the `__main__` driver of codec.py is a demo; neither is modelled.
- Only code points 0..255 are modelled. Above 255, `format(_, "08b")` would produce more than eight bits.
- The non-string branch of `Codec.encode` is not modelled. It only prints and returns `None`.
- Unknown codec names are one value, `OtherName`. It keeps the current codec; with no codec set, the source crashes on `None.encode`/`None.decode`, modelled as `Failed`.
- An image is modelled as rows × cols × 3: `cv2.imread` in colour mode always gives three channels.
- `Node` is a value, not a shared object:
  - setting `left.code`/`right.code` builds updated copies;
  - `nodes.remove(left)` and `nodes.remove(right)` drop the first two entries of the sorted list, which are those same objects;
  - `Node.code` is only read by `traverse_tree`.
- Huffman.HuffmanCodes.Decode requires that, when at least two bits are given, the stored root is a branch or the '#' leaf. On a tree made of one leaf other than '#', the source loops forever. Every tree built from a text containing '#' qualifies (`HuffmanBuild.TreeDecodable`).
- Huffman.HuffmanCodes.Decode returns `None` where the source raises: indexing `None` (no encode yet) or an empty node list (the last encode was of the empty text).
- Steganography.EncodeWith takes a `CodecSlot` value in place of the dynamically typed `self.codec`. A Caesar codec created by the object always has the default shift 3.
