# Verified models of the decoders and the renderer

The project models four components of the repository in Dafny and proves properties of the
models. `dafny verify dfyconfig.toml` checks all of it.

## What is modelled

**The image decoder kernels of `helpers/stb_image.h`.**

- Inflate (`BitStream`, `BitSwaps`, `Canonical`, `ZHuffman`, `Deflate`, `Refill`, `Inflate`, `CutOff`).
  `Deflate` is a reference decoder written from sections 3.2.3 to 3.2.7 of RFC 1951 on the input bits
  extended with zeros. `Refill` says when a decoder that reads ahead has fetched what, and when it notices
  the end of the input. `Inflate` is the decoder itself: a class with the bit reservoir, the two table sets
  and the growing output. What it accepts is stated exactly in terms of the two, and it always ends.
  `DeflateTables` has the laws of the tables of section 3.2.5, `DeflateEncode` (over `BitLists`) an encoder for
  every kind of block, whose streams come back, and `DeflateAccepted` the converse: nothing else is decoded.
- GIF (`GifRaster`, `Lzw`, `LzwLimits`, `Gif`, `LzwEncode`, `LzwAccepted`, `GifEncode`). `Lzw` is the code as a
  plain table of strings, `GifRaster` the order of the pixels; `Gif` is the decoder with its linked dictionary,
  sub-blocks, colour tables and walk. `LzwEncode` and `GifEncode` are the side of the encoder, and `LzwAccepted` shows that nothing
  else decodes by the standard.
- PNG (`PngFilter`, `PngRow`, `PngSamples`, `PngOutput`, `Adam7`, `Png`, `PngEncode`). Filters and samples are
  stated as the PNG specification has them; the decoder rebuilds rows in two alternating halves of
  a buffer, expands them in place and reassembles interlaced passes. `PngEncode` packs, filters and divides into
  passes, and the pictures come back.
- JPEG (`JpegCode`, `JpegHuffman`, `JpegDecode`, `JpegSegment`, `JpegScan`, `JpegBlock`, `JpegEncode`). The code
  of annex C of ITU-T T.81, the tables built for it, the combined table for small AC coefficients, the buffer over
  the stuffed bytes of a segment, and whole baseline blocks, proved against a bit by bit reading of the segment.
  `JpegEncode` writes blocks as section F.1.2 has them, and they come back.

**The banded rasterizer of `helpers/imgui_impl_kitty_render.h`** (`Blend`, `Raster`, `Bands`,
`Emit`, `Shading`). Primitives are emitted per chunk, concatenated with rebased indices, binned into bands by a
counting sort, and drawn. Parallel execution is any schedule that interleaves the steps of the
bands. The result is proved equal to drawing all primitives in order. `Shading` says what every channel of a pixel
is then, as rounded products and mixes.

**The MPEG state machines of `include/pl_mpeg/pl_mpeg.h`** (`MsbBits`, `MpegBuffer`, `MpegStream`,
`MpegSplit`, `MpegDemux`, `MpegMux`, `MpegVideo`, `MpegMotion`). The shifting buffer refines a queue of bits; the
demuxer follows a reference machine over the bytes that have arrived, and it is stated just when splitting
the bytes into writes matters; `MpegMux` writes packets, which come back; the three
frames are a permutation and every picture, whenever it arrives, is decoded from the right references and returned
in order; motion vectors are those of the standard.

**The packed text of `plib/lib/packer.ts`** (`Base64`, `Base64Bits`, `Packer`), through the disk and back.

`Common` holds what several of these use.

## Where the code and what is said about it differ

- Inflate: the remark that use of the padding is caught later (line 4251) is not true in general. Zero bytes
  that were fetched to fill the reservoir count as input (`Refill.Overrun`). `ZlibDecode` is exact: a stream is
  accepted just when the schedule of `Refill` reaches its end. `CutOff` has two streams that both
  end two bits past their input, one accepted and one refused. The fill guard, the guards of the slow path and
  the overflow of the stored header are proved never to be taken. Of the header the window size, which section
  2.2 of RFC 1950 limits to CINFO 7, is not looked at; of the counts of a dynamic block HLIT may be up to 288,
  where section 3.2.7 of RFC 1951 has 257 to 286. The reference takes what the code takes in this.
- Renderer: a chunk size that is a multiple of six does not keep quads whole (line 468):
  `QuadsCanBeCut` has the list, `ChunksIff` the exact condition.
- GIF: the comparison `code == avail` for the suffix (line 6757) comes after the count is raised and is
  never true; the entry is right all the same. The decoder does not support a missing first clear code
  (line 6713), it rejects it, although appendix F of GIF89a only advises encoders to begin with one. Its table
  grows to 8192 entries and then fails, where the standard stops at 4096 and goes on. `LoadFrame` states
  acceptance exactly, with the two conditions on the data named; `LzwLimits` has valid data for each.
- JPEG: symbol number 255 is also the mark for windows without a short code. A table of 256 symbols with
  codes of at most nine bits is accepted, but its last symbol is not decoded: `Told` is what the tables make of
  it, `BlindExists` shows that it happens, and `SightedIff` for which tables it does not. A block that the end of
  its segment cuts off is not always refused: zeros are read after the end of the input, and after a marker once it
  was met; a value without enough bits is taken for zero. `BlockRun` says what is read then, and `DecodeBlock`
  that it is.
- MPEG packets: a header with an invalid marker leaves its length behind, so that the next call takes what
  follows the marker for a payload; as taking packets also stops there, the packets depend on how the bytes
  arrive. `SplitMatters` has the exact condition and `PlayTwice` an example. A header longer than the sixteen bytes
  that are waited for is read differently when it is not there yet: `LongSplits`, with `PlayLong` as an example.
  The first part of a time stamp is shifted as a number of 32 bits, so that clocks from 2^31 on come out wrong:
  `ClockIs`.
- Video: the last reference of a sequence that ends in bidirectional pictures is never returned:
  `DeliverOnce` and `DeliverAll`.
- Packed text: characters of two units and zeros do not come back: `RoundTrip` is an equivalence.

## Conventions

Shifts, masks and disjoint bitwise ors on unsigned words are functions on natural numbers, except for the bit
reversal, which is on machine words; words wrap where the source relies on it. Arrays that the source writes are
arrays, its structures are classes with their fields (names in camel case), and the loops are its loops, split
into small methods. Memory allocation succeeds up to the limits the source sets. Ghost fields record what an object has seen, such
as the position in a stream.

## Model

| member | source | states |
|---|---|---|
| BitStream.ReverseField | helpers/stb_image.h:4107-4121 | reading n stream bits low-first and reversing them is reading them as a Huffman code, first bit highest |
| BitStream.ReverseInvolution | helpers/stb_image.h:4107-4121 | reversing the low n bits twice gives them back |
| BitSwaps.SwapsReverse | helpers/stb_image.h:4107-4114 | swapping bits, pairs, fours and bytes of a word in turn reverses its sixteen bits |
| BitLists.FieldCarried | helpers/stb_image.h:4214-4222 | a number written lowest bit first is read |
| BitLists.MsbFieldCarried | helpers/stb_image.h:4224-4241 | a code written highest bit first is read |
| BitLists.DigitsCarried | include/pl_mpeg/pl_mpeg.h:1675-1696 | a number written highest bit first is read, where bytes begin with their highest bit |
| BitLists.PackCarries | helpers/stb_image.h:4202-4212 | bits packed into bytes are the bits of the stream |
| BitLists.FieldCarries | helpers/stb_image.h:4214-4222 | what is read lowest bit first is what was written so |
| BitLists.MsbFieldCarries | helpers/stb_image.h:4224-4241 | what is read highest bit first is what was written so |
| Canonical.PrefixFree | helpers/stb_image.h:4124-4169 | no 16-bit window starts with the codes of two symbols |
| Canonical.SlotBound | helpers/stb_image.h:4154-4157 | the index under which a coded symbol is stored is below the number of symbols, so the stored-size tables cannot overflow |
| Canonical.SlotInjective | helpers/stb_image.h:4154-4157 | no two symbols are stored under one index |
| Canonical.MatchLevel | helpers/stb_image.h:4139-4149 | a window that starts with a code of length l lies between the preshifted limits of l - 1 and l |
| Canonical.LevelMatch | helpers/stb_image.h:4224-4241 | conversely a window between two limits starts with a code of that length, and first code plus first symbol give its index |
| Canonical.Covered | helpers/stb_image.h:4224-4241 | every window below the limit of l starts with some code of at most l bits |
| Canonical.CodeFits | helpers/stb_image.h:4139-4149 | in an accepted list every code is a number of its own length |
| Canonical.FitsIffKraft | helpers/stb_image.h:4136-4149 | the level-by-level acceptance test holds exactly when the Kraft sum is at most one |
| ZHuffman.BitReverse | helpers/stb_image.h:4107-4121 | reversing sixteen bits by the four swaps and shifting is reversing n bits |
| ZHuffman.FastOwner | helpers/stb_image.h:4159-4163 | each fast slot is written for one symbol only |
| ZHuffman.FastEntryOwner | helpers/stb_image.h:4155-4163 | a fast slot holds the length and number of the symbol that owns it, and zero just when none does |
| ZHuffman.FastIsMatch | helpers/stb_image.h:4158-4163 | a slot belongs to a short code exactly when the reversed window starts with the code |
| ZHuffman.FastLookup | helpers/stb_image.h:4262-4270 | a non-zero fast entry is the symbol whose code starts the window; a zero entry means that no code of at most nine bits does |
| ZHuffman.SlowSearch | helpers/stb_image.h:4228-4233 | the slow search cannot stop before the length of the code that starts the window |
| ZHuffman.SlowNext | helpers/stb_image.h:4228-4233 | going past a limit excludes every code up to that length |
| ZHuffman.FillFast | helpers/stb_image.h:4158-4164 | one short code is entered in just the slots it owns, each of them still empty |
| ZHuffman.ZHuffman.constructor | helpers/stb_image.h:4097-4105 | allocates tables of the right shape |
| ZHuffman.ZHuffman.Build | helpers/stb_image.h:4124-4169 | the tables are built exactly for the lists of lengths that are not over-subscribed, and are then those of the canonical code |
| ZHuffman.ZHuffman.CountSizes | helpers/stb_image.h:4130-4135 | counts the symbols of every length and none of length zero |
| ZHuffman.ZHuffman.ClearFast | helpers/stb_image.h:4131-4131 | with no symbols entered no slot is owned |
| ZHuffman.ZHuffman.BuildLevels | helpers/stb_image.h:4136-4151 | first codes, first symbols and limits of all lengths; refuses exactly the lists that do not fit |
| ZHuffman.ZHuffman.OneLevel | helpers/stb_image.h:4139-4149 | the codes of one length follow those of the shorter ones; refused just when they do not fit |
| ZHuffman.ZHuffman.StoreFirst | helpers/stb_image.h:4140-4142 | stores the first code and first symbol of one length |
| ZHuffman.ZHuffman.BuildSymbols | helpers/stb_image.h:4151-4167 | every coded symbol ends up under its own index and in its own fast slots |
| ZHuffman.ZHuffman.EnterSymbol | helpers/stb_image.h:4154-4157 | stores size and value of one symbol without disturbing the earlier ones |
| Deflate.FixedFits | helpers/stb_image.h:4452-4467 | the fixed code lengths make codes |
| Deflate.FixedCodes | helpers/stb_image.h:4452-4463 | the canonical code of the fixed lengths is the table of section 3.2.6 of RFC 1951 |
| Deflate.NextSymbolIs | helpers/stb_image.h:4243-4271 | at most one symbol is coded at a bit position, so the reference decoder is a function |
| Deflate.CompressedBlockIs | helpers/stb_image.h:4309-4357 | a compressed block ends in one place only |
| Deflate.InflatesOnce | helpers/stb_image.h:4481-4508 | a bit stream decodes to at most one output with one end |
| Deflate.InflatesGoesOn | helpers/stb_image.h:4489-4507 | in a stream that can be decoded every block after a decoded prefix can be decoded too, within the same bounds |
| Deflate.NoBlockPastEnd | helpers/stb_image.h:4489-4495 | no block starts past the end of the input, which bounds the number of blocks |
| Deflate.RepeatedIs | helpers/stb_image.h:4344-4354 | a repetition keeps what was there, and every byte after it is the one dist places before |
| Deflate.FixedDistanceCodes | helpers/stb_image.h:4467-4467 | the fixed distance codes are the numbers of five bits |
| DeflateTables.LengthLaw | helpers/stb_image.h:4295-4300 | section 3.2.5 of RFC 1951 without its table: lengths begin at 3, go up from code to code by as many as the extra bits can say, and end with 258 alone; extra bits by a formula |
| DeflateTables.LengthAt | helpers/stb_image.h:4295-4300 | after the first eight, four length codes at a time have one more extra bit |
| DeflateTables.LengthNamed | helpers/stb_image.h:4335-4336 | every length from 3 to 258 is named by some code and extra bits |
| DeflateTables.DistanceLaw | helpers/stb_image.h:4302-4307 | the same for distances: from 1, by as many as the extra bits can say, up to 32768 |
| DeflateTables.DistanceAt | helpers/stb_image.h:4302-4307 | after the first four, two distance codes at a time have one more extra bit |
| DeflateTables.DistNamed | helpers/stb_image.h:4337-4340 | every distance from 1 to 32768 is named by some code and extra bits |
| DeflateTables.OrderLaw | helpers/stb_image.h:4361-4361 | the order of the code lengths: 16, 17, 18, 0, and then from 8 outwards to both sides |
| DeflateTables.OrderPermutes | helpers/stb_image.h:4372-4376 | no length of the code length code is sent twice, and every one has its turn |
| DeflateTables.NameOfLength | helpers/stb_image.h:4335-4338 | a length symbol and its extra bits stand for one length, which has no other name, but for 258, which the symbol before the last can say too |
| DeflateTables.NameOfDistance | helpers/stb_image.h:4339-4342 | a distance symbol and its extra bits stand for one distance, which has no other name |
| Refill.SymbolsGivenUp | helpers/stb_image.h:4246-4261 | once given up, a block is not taken up again |
| Refill.CompressedFetchIs | helpers/stb_image.h:4309-4333 | what a block fetches is what its symbols up to the end fetch |
| Refill.BlockGivenUp | helpers/stb_image.h:4309-4333 | giving up at one symbol is giving up on the block |
| Refill.StreamGivenUp | helpers/stb_image.h:4489-4507 | a stream is taken only if every block after a decoded prefix is |
| Refill.TakenOnce | helpers/stb_image.h:4481-4508 | at most one output is taken from a stream |
| Refill.WithinIsTaken | helpers/stb_image.h:4246-4251 | streams that end within the input are taken, through every kind of block |
| Inflate.Inflater.constructor | helpers/stb_image.h:4510-4518 | starts with an empty reservoir and an output of the given size |
| Inflate.Inflater.ZGet8 | helpers/stb_image.h:4197-4200 | gives the next byte, or zero past the end |
| Inflate.Inflater.FillBits | helpers/stb_image.h:4202-4212 | the reservoir keeps being the next bits of the zero-extended input and gets more than 24 of them, fetched byte by byte as in the schedule; the early-exit guard is never taken |
| Inflate.Inflater.Drop | helpers/stb_image.h:4218-4219 | drops bits that are held and no more |
| Inflate.Inflater.ZReceive | helpers/stb_image.h:4214-4222 | gives the next n bits, least significant first, after fetching if fewer are held |
| Inflate.Inflater.MakeReady | helpers/stb_image.h:4246-4261 | sees to sixteen bits before a symbol as the schedule of fetching has it, and gives up just when that does |
| Inflate.Inflater.Decode | helpers/stb_image.h:4243-4271 | the symbol of the reference decoder and its length; failure means that no code is there or that the schedule gives up |
| Inflate.Inflater.DecodeSlowpath | helpers/stb_image.h:4224-4241 | the same for windows without a short code; the guards on the index and on the stored size are never taken |
| Inflate.Inflater.Expand | helpers/stb_image.h:4273-4293 | keeps what was written, makes room by doubling, and fails just when the size that doubling can reach, or the fixed size, is too small |
| Inflate.Inflater.PutLiteral | helpers/stb_image.h:4316-4320 | appends one byte, or fails because the room is used up |
| Inflate.Inflater.CopyMatch | helpers/stb_image.h:4348-4354 | appends the repetition of what lies dist bytes back, overlapping or not, also in the special case of one byte |
| Inflate.Inflater.DecodePair | helpers/stb_image.h:4335-4342 | length and distance with their extra bits, as in section 3.2.5 of RFC 1951 |
| Inflate.Inflater.DecodeMatch | helpers/stb_image.h:4335-4355 | one whole match step of the reference decoder, with what it fetches |
| Inflate.Inflater.TakeSymbol | helpers/stb_image.h:4313-4355 | one symbol of a compressed block, be it a literal, a match or the end: what the reference makes of it, with what it fetches; the end is refused when bits of the grant were used |
| Inflate.BlockGoesOn | helpers/stb_image.h:4309-4357 | a block cannot be decoded, or not within the room, as soon as that is so for one of its symbols |
| Inflate.Inflater.ParseHuffmanBlock | helpers/stb_image.h:4309-4357 | the output and end of the compressed block of the reference decoder; fails only when that does, when the schedule gives up or ends with bits of the grant used, or when the room is used up |
| Inflate.Inflater.ReadCodeLengths | helpers/stb_image.h:4372-4376 | the code length code in its permuted order |
| Inflate.Inflater.ReadRepeat | helpers/stb_image.h:4385-4397 | the meaning of the repeat codes 16 to 18, among them the error of repeating nothing |
| Inflate.Inflater.FillIn | helpers/stb_image.h:4382-4400 | appends one length a number of times |
| Inflate.Inflater.TakeItem | helpers/stb_image.h:4381-4401 | what one code length symbol appends; a repetition across the end is refused |
| Inflate.Inflater.ReadAllLengths | helpers/stb_image.h:4379-4403 | the run-length encoded lengths; a run across the end is refused |
| Inflate.Inflater.ReadCounts | helpers/stb_image.h:4367-4369 | how many lengths there are of each kind, with what reading that fetches |
| Inflate.Inflater.ReadDynamic | helpers/stb_image.h:4359-4403 | the two lists of lengths of a dynamic block |
| Inflate.Inflater.ComputeHuffmanCodes | helpers/stb_image.h:4359-4407 | the tables of the two codes of a dynamic block, or failure when the reference has none |
| Inflate.Inflater.BuildBoth | helpers/stb_image.h:4404-4405 | builds both tables just when both lists of lengths fit |
| Inflate.Inflater.AlignToByte | helpers/stb_image.h:4413-4414 | drops the rest of a byte |
| Inflate.Inflater.DrainHeader | helpers/stb_image.h:4415-4421 | the whole bytes in the reservoir are at most the four header bytes: no payload is swallowed |
| Inflate.Inflater.ReadHeader | helpers/stb_image.h:4415-4425 | the four header bytes, partly from the reservoir, leave the reservoir empty |
| Inflate.Inflater.StoredHeader | helpers/stb_image.h:4409-4429 | accepts exactly the stored blocks of the reference and finds where their payload is |
| Inflate.Inflater.PutBytes | helpers/stb_image.h:4432-4434 | copies the payload |
| Inflate.Inflater.ParseUncompressedBlock | helpers/stb_image.h:4409-4436 | the stored block of the reference decoder |
| Inflate.Inflater.ParseZlibHeader | helpers/stb_image.h:4438-4450 | accepts exactly the headers that pass the tests of check sum, dictionary flag and method, with a third byte after them; the window size is not looked at |
| Inflate.Inflater.ParseBlock | helpers/stb_image.h:4490-4505 | one block of any kind as the reference decodes it, with what it fetches; each uses up bits, so decoding ends |
| Inflate.Inflater.ParseZlib | helpers/stb_image.h:4481-4508 | succeeds exactly when the header is right and the blocks are taken within the room, and then gives their output |
| Inflate.ZlibDecode | helpers/stb_image.h:4541-4555 | for every input and every output: the result is that output if and only if the header is right, the stream decodes to it, the schedule of fetching does not give up, and there is room |
| Inflate.AcceptedInflates | helpers/stb_image.h:4481-4508 | soundness: whatever is accepted is what RFC 1951 says the zero-extended input holds, with up to 288 lengths of literals where section 3.2.7 has at most 286 |
| Inflate.WithinIsAccepted | helpers/stb_image.h:4481-4508 | completeness: a stream that ends within its input and fits the room is accepted |
| Inflate.ZlibHeaderFields | helpers/stb_image.h:4438-4450 | the accepted headers field by field: method 8 in the four lowest bits, no preset dictionary, a check sum that is a multiple of 31 |
| Inflate.MaxGrownIs | helpers/stb_image.h:4282-4286 | the room that doubling reaches is a power of two times the first size, below 2^32, and one more doubling is not |
| CutOff.ShortIsTaken | helpers/stb_image.h:4246-4251 | a stream of one byte whose last code ends two bits past it is accepted: use of padding is not always caught |
| CutOff.LongIsRefused | helpers/stb_image.h:4326-4332 | a stream of four bytes whose last code ends two bits past it is refused although the zero-extended bits decode |
| CutOff.DecodeBoth | helpers/stb_image.h:4541-4555 | the decoder called on these two streams, with any room: the empty output, and none |
| DeflateEncode.SymbolRead | helpers/stb_image.h:4243-4271 | a symbol whose canonical code is written is the symbol that is read |
| DeflateEncode.TokenRead | helpers/stb_image.h:4313-4355 | a literal, or a match with its length and distance, that an encoder writes is read as that token |
| DeflateEncode.BodyRead | helpers/stb_image.h:4309-4357 | a compressed block that an encoder writes for any tokens is decoded to their text and ends where it was ended |
| DeflateEncode.ItemsRead | helpers/stb_image.h:4379-4403 | code lengths written plainly or with the repeat codes 16 to 18 arrive |
| DeflateEncode.CodeLengthsRead | helpers/stb_image.h:4372-4376 | the code length code, sent in its order, arrives |
| DeflateEncode.HeadRead | helpers/stb_image.h:4359-4407 | the two codes of a dynamic block that are sent arrive |
| DeflateEncode.HeadExists | helpers/stb_image.h:4359-4407 | every pair of codes of the right numbers of lengths can be sent |
| DeflateEncode.StoredRead | helpers/stb_image.h:4409-4436 | a stored block that is written, with its padding, length and complement, is read, if the input does not end before it |
| DeflateEncode.BlockRead | helpers/stb_image.h:4490-4505 | a block of any kind that is written, last or not, is read |
| DeflateEncode.StreamRead | helpers/stb_image.h:4481-4508 | every stream of stored, fixed and dynamic blocks decodes to the text it stands for |
| DeflateEncode.Decode | helpers/stb_image.h:4541-4555 | round trip: whatever an encoder writes, behind a zlib header, for any text as any blocks of literals and matches, comes back from the decoder if there is room |
| DeflateAccepted.SymbolFound | helpers/stb_image.h:4243-4271 | the symbol that is read has a code, and its bits are in the stream |
| DeflateAccepted.TokenFound | helpers/stb_image.h:4313-4355 | every step of a block reads the bits of a literal or a match that an encoder may write there |
| DeflateAccepted.BodyFound | helpers/stb_image.h:4309-4357 | a compressed block that is decoded is one that an encoder writes for some tokens |
| DeflateAccepted.ItemsFound | helpers/stb_image.h:4379-4403 | code lengths that are read are those that some plain lengths and repetitions stand for |
| DeflateAccepted.HeadFound | helpers/stb_image.h:4359-4407 | codes that are read from the head of a dynamic block are codes that were sent in it |
| DeflateAccepted.StoredFound | helpers/stb_image.h:4409-4436 | a stored block that is decoded has its length, the complement and the payload |
| DeflateAccepted.BlockFound | helpers/stb_image.h:4490-4505 | a block that is decoded is one that an encoder writes |
| DeflateAccepted.StreamFound | helpers/stb_image.h:4481-4508 | whatever is decoded was encoded: the bits are those of some blocks for that text |
| DeflateAccepted.DecodedIffEncoded | helpers/stb_image.h:4481-4508 | within the input, a text is decoded if and only if the bits are an encoding of it |
| DeflateAccepted.AcceptedWasEncoded | helpers/stb_image.h:4541-4555 | what the decoder accepts is an encoding of its output behind a header that is right, and fits the room |
| DeflateAccepted.EncodedIsAccepted | helpers/stb_image.h:4541-4555 | conversely every encoding within the data, behind such a header, is accepted if there is room |
| Blend.Mul255Exact | helpers/imgui_impl_kitty_render.h:40-43 | mul255 is the integer nearest to a * b / 255 |
| Blend.Nearest255Unique | helpers/imgui_impl_kitty_render.h:40-43 | there is only one nearest integer: ties do not occur |
| Blend.BlendExact | helpers/imgui_impl_kitty_render.h:46-54 | every channel of the packed blend is the exactly rounded mix, with no carry between lanes, and the result is opaque |
| Blend.BlendIs | helpers/imgui_impl_kitty_render.h:46-54 | the packed blend is its three exact channels put together |
| Blend.PaintIsBlend | helpers/imgui_impl_kitty_render.h:297-302 | on opaque pixels the shortcuts for alpha 0 and 255 are the blend, and opacity is kept |
| Blend.Split | helpers/imgui_impl_kitty_render.h:46-55 | a pixel is its four channels |
| Raster.SpanSolid | helpers/imgui_impl_kitty_render.h:56-77 | a span paints its pixels and no others, in the unrolled form of the blend |
| Raster.SpanIsBlend | helpers/imgui_impl_kitty_render.h:65-76 | the blend with the source part formed in advance is the blend |
| Raster.PlainTexel | helpers/imgui_impl_kitty_render.h:282-304 | leaving out the tint by white and the scaling by 255 changes nothing |
| Raster.TexPixel | helpers/imgui_impl_kitty_render.h:296-301 | one texel over one pixel in all four instantiations |
| Raster.RectTexRow | helpers/imgui_impl_kitty_render.h:282-304 | a row of a textured rectangle is the pixel function applied to every pixel of the row, and other rows are left alone |
| Raster.TriRow | helpers/imgui_impl_kitty_render.h:316-352 | the same for a row of an interpolated triangle, whose attributes at a column are the first ones plus so many steps, modulo the word size |
| Raster.AlongStep | helpers/imgui_impl_kitty_render.h:319-350 | adding the steps one by one is adding them all at once, since words wrap |
| Raster.TriPixel | helpers/imgui_impl_kitty_render.h:328-349 | one pixel: clamped colour and alpha, times the texel at the clamped coordinates, painted |
| Raster.RenderRow | helpers/imgui_impl_kitty_render.h:354-377 | the same for every kind of primitive |
| Raster.RenderPrim | helpers/imgui_impl_kitty_render.h:354-377 | draws the rows in the given range and only those; no state is carried from row to row |
| Bands.MeetsIff | helpers/imgui_impl_kitty_render.h:435-438 | the division test puts a primitive in a band exactly when they share a row |
| Bands.ItemsSuffice | helpers/imgui_impl_kitty_render.h:448-452 | on a row of a band, drawing the items of the band is drawing all primitives in order |
| Bands.CountPrim | helpers/imgui_impl_kitty_render.h:435-438 | counts a primitive once in every band it meets |
| Bands.PrefixSums | helpers/imgui_impl_kitty_render.h:439-439 | turns the counts into the offsets of the bands |
| Bands.PlacePrim | helpers/imgui_impl_kitty_render.h:442-445 | enters a primitive behind the earlier ones in every band it meets |
| Bands.CountingSort | helpers/imgui_impl_kitty_render.h:434-445 | each band gets exactly the primitives that meet it, in drawing order |
| Bands.BandByBandComplete | helpers/imgui_impl_kitty_render.h:448-452 | rendering band after band is one of the schedules |
| Bands.RenderBands | helpers/imgui_impl_kitty_render.h:446-452 | however the steps of the bands interleave, every pixel is that of drawing all primitives in order |
| Bands.BandHeight | helpers/imgui_impl_kitty_render.h:432-432 | bands have 8 to 64 rows |
| Bands.RenderSegment | helpers/imgui_impl_kitty_render.h:424-453 | direct and banded rendering give the same framebuffer, that of painter's order |
| Bands.BandHeightIs | helpers/imgui_impl_kitty_render.h:432-432 | a band has a quarter of the share of rows of a thread, if that is from 8 to 64, and otherwise the nearer of the two |
| Bands.BandsCover | helpers/imgui_impl_kitty_render.h:433-433 | there are as many bands as the rows need and no more |
| Shading.IntegerPartIs | helpers/imgui_impl_kitty_render.h:294-294 | the integer part that is taken of a 16.16 word is the floor of the signed word |
| Shading.TexColumnIs | helpers/imgui_impl_kitty_render.h:294-295 | the column of a texture is the one nearest to the integer part |
| Shading.ChannelIs | helpers/imgui_impl_kitty_render.h:44-44 | an interpolated channel is the value from 0 to 255 nearest to the integer part |
| Shading.StepsAre | helpers/imgui_impl_kitty_render.h:293-293 | the coordinate after i steps is the first one plus i times the step, modulo the word size |
| Shading.TintIs | helpers/imgui_impl_kitty_render.h:132-136 | every channel of a tinted texel is the rounded product of that channel of the texel and that channel of the tint |
| Shading.PackIs | helpers/imgui_impl_kitty_render.h:345-345 | red, green and blue are channels 0, 1 and 2 of the packed colour |
| Shading.PaintIs | helpers/imgui_impl_kitty_render.h:300-301 | painting over an opaque pixel is the rounded mix in every channel and leaves it opaque |
| Shading.CoversIs | helpers/imgui_impl_kitty_render.h:282-352 | a primitive changes the pixels it covers, by painting its colour and alpha there, and no others |
| Shading.PlainPixel | helpers/imgui_impl_kitty_render.h:354-377 | a pixel under a primitive of one colour: channel k is the rounded mix of that channel of the colour with what was there |
| Shading.TexturedPixel | helpers/imgui_impl_kitty_render.h:282-304 | a pixel under a textured rectangle: channel k of the texel at the nearest column times channel k of the tint, alpha times alpha, both rounded, mixed with what was there |
| Shading.GouraudPixel | helpers/imgui_impl_kitty_render.h:316-352 | a pixel under an interpolated triangle: every attribute is the start plus so many steps as a signed word, floored and clamped |
| Shading.TexturedTriangle | helpers/imgui_impl_kitty_render.h:316-352 | the same times the texel at the nearest column and row, channel by channel |
| Shading.OnTop | helpers/imgui_impl_kitty_render.h:446-452 | of the primitives that cover a pixel the last one with full alpha, if none covers it after that, is all that is seen |
| Shading.OpaqueIs | helpers/imgui_impl_kitty_render.h:301-301 | an opaque pixel has full alpha, and making one so keeps its colour |
| Emit.EmitRange | helpers/imgui_impl_kitty_render.h:266-277 | emits what the scan of the index range meets |
| Emit.ScanSplit | helpers/imgui_impl_kitty_render.h:266-277 | a scan that lands on a position is the scan up to it and the scan from it |
| Emit.ChunksIff | helpers/imgui_impl_kitty_render.h:488-491 | scanning chunk by chunk meets what one scan meets exactly when that scan lands on the start of every chunk |
| Emit.QuadsCanBeCut | helpers/imgui_impl_kitty_render.h:468-468 | the remark that a multiple of six keeps quads whole fails: a triangle and then quads over four vertices each, for which, with every emitter that takes these quads for rectangles, the scan misses the chunk boundary, one quad is cut, and the chunks give other primitives |
| Emit.SomeTakesQuads | helpers/imgui_impl_kitty_render.h:139-193 | there is an emitter that takes just these quads for rectangles |
| Emit.RebasePrims | helpers/imgui_impl_kitty_render.h:420-421 | adding an offset to triangle indices is numbering the triangles from there |
| Emit.OwnData | helpers/imgui_impl_kitty_render.h:261-263 | every triangle primitive refers to the data emitted with it |
| Emit.Offsets | helpers/imgui_impl_kitty_render.h:407-411 | prefix sums of the chunk sizes |
| Emit.OffMono | helpers/imgui_impl_kitty_render.h:407-411 | the parts of the chunks follow each other without overlap |
| Emit.CopyAt | helpers/imgui_impl_kitty_render.h:414-422 | the primitives of a chunk, its triangles renumbered, and its triangle data stand in their places and nothing else changes |
| Emit.CopyChunk | helpers/imgui_impl_kitty_render.h:414-422 | copies one chunk into its own part and leaves finished parts alone |
| Emit.Concat | helpers/imgui_impl_kitty_render.h:403-423 | copying the chunks in any order concatenates them, with triangles renumbered |
| Emit.EmitAll | helpers/imgui_impl_kitty_render.h:392-423 | the concatenation is what the chunks meet, and what one scan meets if it lands on every chunk |
| Emit.ScanDivides | helpers/imgui_impl_kitty_render.h:266-277 | a scan divides the indices among its events without a gap up to less than a triangle; a rectangle is six indices a, b, c, a, c, d that are taken for one, and a triangle stands only where none is |
| Emit.PrimAt | helpers/imgui_impl_kitty_render.h:195-263 | every event that emits something has its own primitive, in the order of the events, and a triangle the number of its data |
| GifRaster.RowOrderPermutes | helpers/stb_image.h:6679-6688 | the interlaced order is a permutation of the rows, whatever the height |
| GifRaster.PathPermutes | helpers/stb_image.h:6664-6688 | the walk visits every pixel of the rectangle once and no other |
| GifRaster.PathLength | helpers/stb_image.h:6664-6688 | the walk takes width times height steps |
| GifRaster.RowOrderInOrder | helpers/stb_image.h:6679-6688 | rows come pass by pass as appendix E of GIF89a has them, and downwards within a pass |
| GifRaster.PathAt | helpers/stb_image.h:6664-6688 | step i times the width plus k is in the row that comes as number i, k pixels from its left end |
| Lzw.StepAgrees | helpers/stb_image.h:6729-6773 | one code does the same to the larger table and to the standard one cut off at 4096 entries, until the larger one is full or a code comes before any clear code |
| Lzw.WidthGrows | helpers/stb_image.h:6763-6766 | the masked test widens the code exactly when the table reaches a power of two up to 2048 |
| Lzw.StepCounts | helpers/stb_image.h:6750-6754 | the table has one entry for every code with a string since the last clear code, but the first |
| Lzw.RunAgrees | helpers/stb_image.h:6718-6773 | the run of the decoder is the standard run until it gives up, and it gives up only for data that are not valid, do not begin with a clear code, or go on for too long without one |
| Lzw.FirstClear | helpers/stb_image.h:6744-6747 | the first code is refused just when it is neither a clear nor the end code |
| Lzw.Refused | helpers/stb_image.h:6744-6772 | when the decoder gives up, the data are not valid by the standard, do not begin with a clear code, or have more than 8192 - (2^c + 2) + 1 codes without one |
| Lzw.Delivered | helpers/stb_image.h:6718-6743 | what the decoder accepts decodes to its output by the standard, begins with a clear code and never goes on for that long |
| LzwLimits.UnclearedIsRefused | helpers/stb_image.h:6713-6716 | data that are valid by the standard and refused for their first code |
| LzwLimits.ZeroRun | helpers/stb_image.h:6729-6773 | the standard run over a clear code and any number of zeros |
| LzwLimits.ZerosAreRefused | helpers/stb_image.h:6750-6753 | all sequences of 12284 and more bytes that hold a clear code and zeros are valid by the standard and refused |
| LzwLimits.BothOccur | helpers/stb_image.h:6744-6753 | each of the two reasons for refusing valid data occurs without the other |
| Gif.Gif.NextRow | helpers/stb_image.h:6679-6688 | goes to the next row of the walk, skipping passes that have no rows |
| Gif.Gif.MoveOn | helpers/stb_image.h:6677-6688 | goes to the next pixel of the walk |
| Gif.Gif.OutPixel | helpers/stb_image.h:6664-6688 | paints the next pixel of the path unless its entry is transparent; past the end nothing happens |
| Gif.Gif.OutCode | helpers/stb_image.h:6654-6689 | writes the string of a code along the path; prefixes are earlier codes, so the recursion ends |
| Gif.Gif.InitCodes | helpers/stb_image.h:6707-6711 | enters the roots |
| Gif.Gif.AddEntry | helpers/stb_image.h:6750-6757 | the new entry spells the previous string and the first index of the current one, also when the code names the new entry; the comparison with the count already raised is never true |
| Gif.Gif.Get8 | helpers/stb_image.h:6721-6726 | the next byte, or zero past the end |
| Gif.Gif.FetchByte | helpers/stb_image.h:6719-6727 | takes bytes from the sub-blocks into the bit buffer until the empty block |
| Gif.Gif.UseCode | helpers/stb_image.h:6744-6768 | one code with a string: the table grows, the string is written, the width is adapted |
| Gif.Gif.OneCode | helpers/stb_image.h:6729-6772 | one code of any kind does what the code stands for |
| Gif.Gif.ProcessRaster | helpers/stb_image.h:6691-6774 | the outcome and the emitted indices are those of the code stream in the sub-blocks; decoding always ends |
| Gif.Gif.WholePath | helpers/stb_image.h:6857-6880 | set at the corner of the rectangle, or at its end if it has no columns, the walk has the whole path before it |
| Gif.Gif.StartFrame | helpers/stb_image.h:6857-6888 | at the start the whole path is ahead and nothing is painted |
| Gif.Gif.LoadFrame | helpers/stb_image.h:6846-6891 | for minimum code sizes 2 to 8: accepts exactly the data that decode by the standard, begin with a clear code and never have too many codes without one, and paints the decoded indices along the path, every other pixel unchanged |
| Gif.StandardText | helpers/stb_image.h:6691-6774 | acceptance and output in terms of the standard decoding |
| Gif.ImageAt | helpers/stb_image.h:6664-6676 | on a path without repetitions every visited pixel shows its own index |
| Gif.LinkedSnoc | helpers/stb_image.h:6750-6757 | adding an entry keeps the links of all earlier entries |
| Gif.ClearedLinks | helpers/stb_image.h:6733-6738 | after a clear code the roots are still linked |
| Gif.Gif.Get16 | helpers/stb_image.h:1714-1718 | two bytes, the low one first |
| Gif.Gif.ParseColortable | helpers/stb_image.h:6597-6606 | entry i has red, green and blue of its three bytes, and is transparent only if it is the transparent index |
| Gif.Gif.ReadTable | helpers/stb_image.h:6871-6888 | interlacing and the colours of an image from its flags: its own table, or the global one, or failure |
| Gif.Gif.LoadImage | helpers/stb_image.h:6846-6891 | an image from its descriptor on: accepted exactly if it lies on the screen, has colours and its data are accepted, and then every painted pixel shows the red, green and blue that the file has for its index |
| LzwEncode.SayStep | helpers/stb_image.h:6744-6768 | a string that is sent as the code of its entry is understood, and gives encoder and decoder the same new entry |
| LzwEncode.SignsRead | helpers/stb_image.h:6718-6773 | codes that are sent, in the widths of the standard, are read |
| LzwEncode.ImageRead | helpers/stb_image.h:6691-6774 | what is encoded by any choice of table entries and clear codes decodes to its text by the standard |
| LzwEncode.ImageAccepted | helpers/stb_image.h:6691-6774 | and is accepted by the decoder if it begins with a clear code and never goes on too long without one |
| LzwEncode.SinglyOk | helpers/stb_image.h:6691-6774 | every text of indices can be encoded |
| LzwAccepted.SayFound | helpers/stb_image.h:6744-6768 | a code with a string is the number of an entry that an encoder may send there |
| LzwAccepted.ImageFound | helpers/stb_image.h:6691-6774 | whatever decodes by the standard was encoded |
| LzwAccepted.DecodesIffEncoded | helpers/stb_image.h:6691-6774 | data decode to a text by the standard if and only if they are an encoding of it, ended by the end code or by the end of the data |
| GifEncode.BlocksTaken | helpers/stb_image.h:6719-6727 | data divided into sub-blocks in any way are what is read |
| GifEncode.DecodesOnce | helpers/stb_image.h:6691-6774 | data decode in one way only |
| GifEncode.Draw | helpers/stb_image.h:6846-6891 | round trip: an image that was encoded is accepted, and its pixels are shown with their colours, row by row in the order of the rows |
| GifEncode.DescriptorRead | helpers/stb_image.h:6846-6888 | place, size, flags and colours of an image that are written are those that are read |
| GifEncode.DrawImage | helpers/stb_image.h:6846-6891 | round trip from the descriptor on: an image that is written with or without a colour table is accepted, and every pixel has the red, green and blue of its index, in the order of the rows |
| PngFilter.PaethIsPredictor | helpers/stb_image.h:4657-4668 | the reformulated predictor is the one of section 9.4 of the PNG specification, for all integers |
| PngFilter.RowRoundTrip | helpers/stb_image.h:4754-4785 | for every filter and pixel distance, reconstruction undoes filtering and filtering undoes reconstruction |
| PngFilter.FirstRow | helpers/stb_image.h:4648-4655 | the filters substituted on the first row give what the chosen ones give under a row of zeros, without reading the row above |
| PngFilter.RowStartIs | helpers/stb_image.h:4717-4724 | row j begins at j times the row length with its filter byte |
| PngFilter.ImageRoundTrip | helpers/stb_image.h:4737-4787 | any image encoded with any choice of filters per row comes back row by row |
| PngRow.Put | helpers/stb_image.h:4755-4785 | one byte of the row is rebuilt |
| PngRow.Unfilter | helpers/stb_image.h:4755-4785 | all six forms of the filter loop rebuild the row from the two halves of the buffer |
| PngRow.UnfilterAverage | helpers/stb_image.h:4768-4773 | the average filter, with its special first pixel |
| PngRow.UnfilterPaeth | helpers/stb_image.h:4774-4779 | the Paeth filter, with its special first pixel |
| PngRow.UnfilterRow | helpers/stb_image.h:4737-4787 | the row of the specification ends up in its half of the buffer and the row above stays in the other |
| PngSamples.SampleOnTop | helpers/stb_image.h:4797-4817 | the highest bits of the shifted byte are the sample of section 7.2 of the PNG specification |
| PngSamples.SmallSample | helpers/stb_image.h:4797-4817 | walking through a row by bytes and shifts meets every small sample in turn |
| PngSamples.WideSample | helpers/stb_image.h:4822-4850 | samples of eight and sixteen bits are bytes and big-endian words |
| PngSamples.ScaleIsExact | helpers/stb_image.h:4670-4670 | the scale takes the largest grey sample to 255 |
| PngOutput.ExpandBits | helpers/stb_image.h:4790-4817 | small samples are scaled and written one by one |
| PngOutput.CopySamples | helpers/stb_image.h:4822-4834 | wide samples without added alpha |
| PngOutput.AlphaInPlace | helpers/stb_image.h:4672-4693 | making room for alpha within a row, from its end, loses no sample |
| PngOutput.SpreadBytes | helpers/stb_image.h:4672-4693 | bytes with an opaque alpha after every pixel |
| PngOutput.SpreadWords | helpers/stb_image.h:4836-4850 | words with an opaque alpha after every pixel |
| PngOutput.EmitRow | helpers/stb_image.h:4789-4852 | a row of output shows the samples of the rebuilt row in every depth and channel layout, and no other row changes |
| Adam7.PassPixel | helpers/stb_image.h:4888-4891 | every position of a pass is a pixel the standard pattern assigns to that pass |
| Adam7.PositionBack | helpers/stb_image.h:4888-4891 | different positions of a pass are different pixels |
| Adam7.PixelPass | helpers/stb_image.h:4874-4877 | every pixel is at a position of its pass |
| Adam7.PassSize | helpers/stb_image.h:4879-4881 | the computed width and height of a pass count exactly its columns and rows in the image |
| Adam7.Pattern | helpers/stb_image.h:4874-4877 | origins and spacings of the passes as the pattern of section 8.2 of the PNG specification has them |
| Png.Png.CreateRaw | helpers/stb_image.h:4696-4859 | succeeds exactly when sizes fit, data suffice and filters are known, and then every output row is the expanded reconstructed row |
| Png.FillRows | helpers/stb_image.h:4737-4853 | all rows in turn, up to the first unknown filter |
| Png.OneRow | helpers/stb_image.h:4737-4853 | one row: filter byte, reconstruction, expansion |
| Png.Png.CreateImage | helpers/stb_image.h:4861-4904 | interlaced or not: succeeds exactly when all data are good, and then every pixel is the one that its pass has at its place |
| Png.Png.OnePass | helpers/stb_image.h:4873-4900 | one pass is decoded, spread over the image and left behind in the data; passes without pixels have no data |
| Png.PlacePass | helpers/stb_image.h:4888-4895 | every pixel of a pass is put where it belongs and none of another pass is touched |
| Png.PlacePixel | helpers/stb_image.h:4890-4893 | one pixel is put where it belongs |
| Png.CopyPixel | helpers/stb_image.h:4892-4893 | copies all channels of a pixel and nothing else |
| PngEncode.FilterTypes | helpers/stb_image.h:4755-4785 | what each filter type of section 9.2 of the PNG specification takes for its prediction |
| PngEncode.PaethNearest | helpers/stb_image.h:4657-4668 | the predictor is the neighbour nearest to left plus up minus upper left, with ties in the order left, up, upper left |
| PngEncode.DistanceLaw | helpers/stb_image.h:4708-4708 | the filter distance is the number of bytes of a pixel, rounded up, as section 9.2 has it |
| PngEncode.SameSample | helpers/stb_image.h:4708-4708 | so many bytes before a byte of a sample is the same byte of the same sample of the pixel to the left |
| PngEncode.ScaleLaw | helpers/stb_image.h:4791-4791 | only grey samples of few bits are scaled, the largest of them to 255; palette indices of any depth are not |
| PngEncode.OpaqueLaw | helpers/stb_image.h:4672-4693 | an added alpha is the largest value of a channel of the output |
| PngEncode.MulFitsIs | helpers/stb_image.h:1014-1020 | the guard by division is met just when the product fits an int |
| PngEncode.SizesLaw | helpers/stb_image.h:4696-4722 | the size guards together are met just when every size that is formed fits an int |
| PngEncode.RowRead | helpers/stb_image.h:4789-4852 | the samples of a row that is written, packed from the highest bit on, are those that are read |
| PngEncode.SheetRead | helpers/stb_image.h:4696-4859 | rows that are filtered and written by an encoder are in order and come back, wherever they stand in the data |
| PngEncode.Decode | helpers/stb_image.h:4696-4859 | round trip: a picture encoded in any depth, layout and filters comes back pixel by pixel and channel by channel, scaled and with opaque alpha added |
| PngEncode.PassFound | helpers/stb_image.h:4873-4900 | the data of every pass that has pixels begin where the decoder looks for them |
| PngEncode.DecodeInterlaced | helpers/stb_image.h:4861-4904 | round trip of pictures encoded in seven passes, every pixel at its own place |
| PngEncode.RawOkIs | helpers/stb_image.h:4696-4741 | data are in order just when sizes fit, there are enough of them, and every row begins with one of five filter types |
| PngEncode.AllFormats | helpers/stb_image.h:5111-5126 | all depths and colour types, with alpha added where there is none, are formats of the decoder |
| PngEncode.OutputLaw | helpers/stb_image.h:4861-4865 | a pixel of the output has a byte for every channel, or two if samples have sixteen bits |
| MsbBits.DigitsInPiece | include/pl_mpeg/pl_mpeg.h:1680-1693 | the shifted and masked part of a byte is the number its bits spell |
| MsbBits.DigitsCut | helpers/stb_image.h:2097-2126 | the highest bits of a number of n + m bits and the rest are the numbers of the first n bits and of the others |
| JpegCode.LevelIsMatch | helpers/stb_image.h:2117-2137 | the first length at which the window is below the edge is that of the code the window begins with |
| JpegCode.LongerWindow | helpers/stb_image.h:2104-2126 | a longer window is decoded as its beginning, if that holds a whole code |
| JpegHuffman.Huffman.constructor | helpers/stb_image.h:1937-1946 | allocates tables of the right shape |
| JpegHuffman.Huffman.Build | helpers/stb_image.h:2003-2046 | builds the tables exactly for the accepted lists of counts; they are then those of annex C of ITU-T T.81 |
| JpegHuffman.Huffman.ListSizes | helpers/stb_image.h:2007-2014 | the sizes of the symbols in order, or failure with more than 256 symbols |
| JpegHuffman.Huffman.AssignCodes | helpers/stb_image.h:2016-2031 | codes, limits and index offsets of all lengths |
| JpegHuffman.Huffman.OneLevel | helpers/stb_image.h:2022-2026 | consecutive codes for the symbols of one length, refused just when they do not fit |
| JpegHuffman.Huffman.FillFast | helpers/stb_image.h:2033-2044 | the nine-bit table says which short code a window begins with |
| JpegHuffman.Huffman.FillSlot | helpers/stb_image.h:2036-2043 | one short code is entered in all windows that begin with it |
| JpegDecode.ShiftedTop | helpers/stb_image.h:2062-2063 | the bits after a shift are the same in the nine-bit window and in the buffer |
| JpegDecode.ShlTwice | helpers/stb_image.h:2110-2162 | shifting twice is shifting by the sum |
| JpegDecode.SignIs | helpers/stb_image.h:2160-2165 | the sign taken from the top bit is the comparison of procedure EXTEND |
| JpegDecode.RotateIs | helpers/stb_image.h:2161-2163 | rotating and masking gives the highest bits and the buffer without them |
| JpegDecode.FastAcIsSlow | helpers/stb_image.h:2050-2073 | wherever the combined table has an entry it gives the run, the value and the number of bits of decoding the symbol and then the value, and one shift by that number leaves the buffer that the two shifts leave, whatever the tables hold |
| JpegDecode.BuildFastAc | helpers/stb_image.h:2050-2073 | fills the combined table |
| JpegDecode.BlindExists | helpers/stb_image.h:2033-2044 | there are accepted tables with a short code for symbol 255, which the table of short codes cannot express |
| JpegSegment.Unstuffed | helpers/stb_image.h:2075-2091 | data with a zero after every byte of ones come back, up to the marker that ends them |
| JpegScan.TopIs | helpers/stb_image.h:2102-2105 | the top of the buffer is the next bits, also when zeros have to stand for bits after the end |
| JpegScan.ShlHolds | helpers/stb_image.h:2110-2111 | a shift leaves the bits that follow |
| JpegScan.EnterByte | helpers/stb_image.h:2088-2089 | a byte is entered below the bits that are held |
| JpegScan.Jpeg.constructor | helpers/stb_image.h:2936-2942 | nothing is held at the start of a segment |
| JpegScan.Jpeg.Get8AfterOnes | helpers/stb_image.h:2080-2081 | goes past fill bytes |
| JpegScan.Jpeg.NextByte | helpers/stb_image.h:2078-2087 | the next byte of the segment, or its end at a marker |
| JpegScan.Jpeg.Grow | helpers/stb_image.h:2075-2091 | the buffer keeps holding the next bits of the segment, with the bytes fetched that the schedule of fetching has |
| JpegScan.NeededEnough | helpers/stb_image.h:2075-2091 | up to the end of the segment, and beyond it unless a marker ends it, the schedule always has the bits that are needed |
| JpegScan.Jpeg.Need | helpers/stb_image.h:2102-2102 | fetches when fewer than n bits are held; then so many are held, or a marker was met and zeros follow |
| JpegScan.Jpeg.LookUp | helpers/stb_image.h:2102-2146 | for every accepted table and every buffer: the symbol that the two tables tell, or failure when they tell none or its code is longer than what is held |
| JpegScan.ToldIsSymbol | helpers/stb_image.h:2102-2146 | what the tables tell is what procedure DECODE of T.81 reads, unless it is symbol 255 with a code of at most nine bits: then at least ten bits are used up or decoding fails |
| JpegScan.Jpeg.SearchLevel | helpers/stb_image.h:2117-2131 | finds the length of a long code |
| JpegScan.Jpeg.SlowSymbol | helpers/stb_image.h:2136-2145 | reads the symbol of a long code |
| JpegScan.Jpeg.HuffDecode | helpers/stb_image.h:2097-2146 | at every position the symbol that is told there; failure just when there is none or the bits fetched do not reach |
| JpegScan.Jpeg.ExtendReceive | helpers/stb_image.h:2151-2166 | the next bits of the segment as a signed value by procedure EXTEND, or zero, and none used, when the bits fetched do not reach; exact in value and position |
| JpegScan.FastEntryIs | helpers/stb_image.h:2236-2246 | an entry of the combined table is the run, value and length that are coded at the position in the segment |
| JpegScan.Jpeg.DecodeAc | helpers/stb_image.h:2231-2260 | one AC step by the combined table or without it, exact at every position: also where the segment ends, where bytes are fetched once or twice, and for symbol 255 |
| JpegScan.AcWithin | helpers/stb_image.h:2231-2260 | within the segment, or where no marker ends it, and where the table of short codes is not blind, the step is that of section F.2.2.2 of T.81 |
| JpegBlock.PlaceIsWalk | helpers/stb_image.h:2192-2208 | the table of places is the walk along the diagonals of figure A.6 |
| JpegBlock.PlaceOnce | helpers/stb_image.h:2192-2204 | no two of the 64 positions have one place |
| JpegBlock.AddIntsValid | helpers/stb_image.h:1070-1075 | true exactly when the sum is in range, without forming it |
| JpegBlock.Mul2ShortsValid | helpers/stb_image.h:1078-1084 | true exactly when the product is in range, without forming it |
| JpegBlock.SightedIff | helpers/stb_image.h:2033-2044 | a table can express all its symbols exactly when it has no short code for symbol 255 |
| JpegBlock.FirstSymbol | helpers/stb_image.h:2214-2216 | the symbol of the DC coefficient, before which bytes may be fetched twice |
| JpegBlock.ReadDifference | helpers/stb_image.h:2222-2222 | the difference of the DC coefficient, in range, or zero where the segment is cut off |
| JpegBlock.MergeDc | helpers/stb_image.h:2223-2227 | accepts exactly the DC coefficients that are in range with their product |
| JpegBlock.DecodeAcs | helpers/stb_image.h:2229-2260 | the AC coefficients of a block in their places, dequantised, just as the decoder reads them, cut off or not |
| JpegBlock.DecodeRest | helpers/stb_image.h:2219-2260 | what follows the first symbol: clears the block, merges the DC coefficient and decodes the others |
| JpegBlock.DecodeBlock | helpers/stb_image.h:2211-2262 | for all accepted tables and every position: a block is accepted exactly when its reading step by step is, and then the 64 dequantised coefficients, the DC coefficient, the position and the bytes fetched are those of that reading |
| JpegBlock.AcRunIsStandard | helpers/stb_image.h:2229-2260 | from any position of the sequence on the coefficients read are those of the standard, with zeros after a segment that no marker ends |
| JpegBlock.BlockIsStandard | helpers/stb_image.h:2211-2262 | whenever the segment does not cut a block off and no symbol is met for which the table of short codes is blind, the reading gives the coefficients and the end of section F.2.2 of T.81, and fails exactly when the block is not valid; a segment that no marker ends is read with any number of zeros after it |
| JpegBlock.NeverBlinded | helpers/stb_image.h:2033-2044 | with tables that can express their symbols no block meets such a symbol |
| JpegBlock.PaddedIn | helpers/stb_image.h:2078-2079 | bits after the end of a segment are read as zeros |
| JpegEncode.CodeNext | helpers/stb_image.h:2016-2031 | each code of annex C of T.81 is one more than the code before it, with zeros appended where it is longer |
| JpegEncode.FirstCode | helpers/stb_image.h:2017-2017 | the first code is all zeros |
| JpegEncode.CodesOfSize | helpers/stb_image.h:2007-2014 | there are as many codes of a length as the list of counts says |
| JpegEncode.SymbolRead | helpers/stb_image.h:2097-2146 | a symbol whose code is in the segment is read |
| JpegEncode.ValueRead | helpers/stb_image.h:2153-2168 | a value written in the bits of its category, one less if it is negative, is read |
| JpegEncode.StepRead | helpers/stb_image.h:2231-2260 | a run of zeros and the value after it, written as symbol and bits, are read |
| JpegEncode.AcRead | helpers/stb_image.h:2229-2260 | the coefficients that figure F.2 of T.81 writes, with zero runs and end of block, come back in their places, dequantised |
| JpegEncode.BlockRead | helpers/stb_image.h:2210-2262 | a block that is written, its DC coefficient as a difference, is read |
| JpegEncode.DecodeOne | helpers/stb_image.h:2210-2262 | the decoder, at a block that is in the segment, gives its coefficients and stops at its end |
| JpegEncode.Decode | helpers/stb_image.h:2949-2968 | round trip: from the tables of any two accepted codes and a stuffed segment ended by a marker, the blocks that an encoder wrote with these codes come back one after another |
| JpegEncode.OtherEnds | helpers/stb_image.h:2251-2254 | a symbol without a value ends the block whatever run it names, unless it stands for sixteen zeros |
| JpegEncode.PastEnd | helpers/stb_image.h:2205-2207 | a run past the end of the block leads to its last place |
| JpegEncode.LargeCategory | helpers/stb_image.h:2215-2216 | a DC category of more than 15 bits is refused |
| MpegBuffer.Buffer.constructor | include/pl_mpeg/pl_mpeg.h:1495-1511 | an empty buffer |
| MpegBuffer.Buffer.DiscardReadBytes | include/pl_mpeg/pl_mpeg.h:1609-1620 | moves the unread bytes to the front; what is still to be read is unchanged |
| MpegBuffer.Buffer.Write | include/pl_mpeg/pl_mpeg.h:1535-1566 | appends to what is still to be read, after discarding and growing as needed |
| MpegBuffer.Buffer.Store | include/pl_mpeg/pl_mpeg.h:1562-1563 | copies new bytes behind the old ones |
| MpegBuffer.Buffer.Grow | include/pl_mpeg/pl_mpeg.h:1552-1560 | doubles the capacity until the bytes fit, and keeps the content |
| MpegBuffer.Buffer.Has | include/pl_mpeg/pl_mpeg.h:1656-1673 | whether so many bits are left of all that was written; notices the end |
| MpegBuffer.Buffer.Read | include/pl_mpeg/pl_mpeg.h:1675-1696 | gives the next bits, highest first, or zero without moving when they are not there |
| MpegBuffer.Buffer.ReadPiece | include/pl_mpeg/pl_mpeg.h:1681-1693 | the bits that the current byte has |
| MpegBuffer.Buffer.Align | include/pl_mpeg/pl_mpeg.h:1698-1700 | goes on to the next byte |
| MpegBuffer.Buffer.Skip | include/pl_mpeg/pl_mpeg.h:1702-1706 | moves only if all bits are there |
| MpegBuffer.Buffer.SkipBytes | include/pl_mpeg/pl_mpeg.h:1708-1716 | skips the whole run of a byte value and counts it |
| MpegBuffer.NextThenFind | include/pl_mpeg/pl_mpeg.h:1736-1745 | finding a given start code is finding the next one until it is that |
| MpegBuffer.Buffer.NextStartCode | include/pl_mpeg/pl_mpeg.h:1718-1734 | finds the first start code that has a byte after it, or waits where the next could begin |
| MpegBuffer.Buffer.FindStartCode | include/pl_mpeg/pl_mpeg.h:1736-1745 | finds the first start code of a kind |
| MpegBuffer.Buffer.HasStartCode | include/pl_mpeg/pl_mpeg.h:1747-1757 | looks ahead without moving or discarding |
| MpegStream.MoreBytes | include/pl_mpeg/pl_mpeg.h:2175-2278 | more data never change what was decided, be it a packet or a header that is not valid, and a machine that waits goes on from where it waits |
| MpegStream.HeaderFields | include/pl_mpeg/pl_mpeg.h:2230-2262 | the fields of a packet header as bits are those of its bytes |
| MpegStream.ReadAsParsed | include/pl_mpeg/pl_mpeg.h:2230-2263 | reading a header field by field gives what its bytes say, if it fits the sixteen bytes looked ahead |
| MpegStream.StepHeader | include/pl_mpeg/pl_mpeg.h:2225-2264 | what a header leads to is told by reading it, however long it is |
| MpegStream.Progress | include/pl_mpeg/pl_mpeg.h:2175-2213 | every packet moves the machine on |
| MpegStream.ActProgress | include/pl_mpeg/pl_mpeg.h:2175-2213 | the same when a header goes on after sixteen bytes |
| MpegStream.RunMore | include/pl_mpeg/pl_mpeg.h:2175-2278 | if the headers fit sixteen bytes, the packets of all data are those of a first part followed by those from where the first part waits |
| MpegStream.WordIs | include/pl_mpeg/pl_mpeg.h:2230-2263 | lengths are words of 64 bits |
| MpegDemux.Demux.constructor | include/pl_mpeg/pl_mpeg.h:1817-1830 | starts looking for start codes |
| MpegDemux.Demux.Write | include/pl_mpeg/pl_mpeg.h:1535-1566 | new data leave the machine where it is |
| MpegDemux.Demux.Decode | include/pl_mpeg/pl_mpeg.h:2175-2213 | for every buffer and every state one call does one step of the reference machine: the packet it gives, or nothing while it waits or when a header is not valid, and the state it leaves, inside a byte after such a header |
| MpegDemux.Demux.SkipCurrent | include/pl_mpeg/pl_mpeg.h:2180-2187 | the packet given before is still all there and is skipped |
| MpegDemux.Demux.FindPacket | include/pl_mpeg/pl_mpeg.h:2199-2210 | skips start codes that begin no packet |
| MpegDemux.Demux.DecodePacket | include/pl_mpeg/pl_mpeg.h:2225-2264 | when sixteen bytes are there, reads a header however long it is, and gives its packet if that is all there |
| MpegDemux.Demux.ReadHeader | include/pl_mpeg/pl_mpeg.h:2230-2263 | stuffing, buffer size and time stamps are skipped and taken off the length, modulo the word size; after an invalid marker the length so far stays |
| MpegDemux.Demux.ReadLength | include/pl_mpeg/pl_mpeg.h:2233-2240 | length, stuffing and buffer size |
| MpegDemux.Demux.ReadStamps | include/pl_mpeg/pl_mpeg.h:2242-2262 | marker and time stamps |
| MpegDemux.Demux.DecodeTime | include/pl_mpeg/pl_mpeg.h:2215-2223 | the clock of a time stamp, its first part shifted as a number of 32 bits, and where reading it ends |
| MpegDemux.ClockIs | include/pl_mpeg/pl_mpeg.h:2215-2223 | the clock is the number of 33 bits in the stamp exactly when the first two of them are zero |
| MpegDemux.Demux.GetPacket | include/pl_mpeg/pl_mpeg.h:2266-2278 | gives the payload once all of it is there; a length taken below zero never is |
| MpegDemux.Demux.Drain | include/pl_mpeg/pl_mpeg.h:2175-2213 | taking packets until none comes gives those up to where the machine waits or meets a header that is not valid, whatever the headers are |
| MpegDemux.Play | include/pl_mpeg/pl_mpeg.h:2175-2278 | for every stream, writing its pieces and draining after each gives the packets of the reference for these pieces |
| MpegDemux.StrayParse | include/pl_mpeg/pl_mpeg.h:2225-2278 | after a header with an invalid marker the bytes from the marker on are given as a payload |
| MpegDemux.PlayTwice | include/pl_mpeg/pl_mpeg.h:2225-2278 | the same bytes written at once, and followed by an empty write, give different packets |
| MpegDemux.LongSplits | include/pl_mpeg/pl_mpeg.h:2226-2236 | for every header that goes on after sixteen bytes: a call after the sixteenth and a call after all of it read it differently, and the first takes what follows to begin earlier |
| MpegDemux.LongEnds | include/pl_mpeg/pl_mpeg.h:2230-2262 | reading such a header ends after its sixteenth byte if all its fields are there |
| MpegDemux.StuffedRuns | include/pl_mpeg/pl_mpeg.h:2175-2278 | a stream with such a header has one packet when it arrives in one piece and another one when it arrives in two |
| MpegDemux.PlayLong | include/pl_mpeg/pl_mpeg.h:2175-2278 | the decoder, given the bytes of such a stream in two pieces and in one, gives these different packets |
| MpegSplit.RunThenAll | include/pl_mpeg/pl_mpeg.h:2175-2278 | taking what has arrived and then the rest is taking everything, if the headers fit sixteen bytes |
| MpegSplit.FeedThenAll | include/pl_mpeg/pl_mpeg.h:2175-2278 | in such a stream what comes out of any pieces is a first part of all packets, and the rest can still be taken |
| MpegSplit.FeedHasRun | include/pl_mpeg/pl_mpeg.h:2175-2278 | in such a stream everything up to the first header that is not valid comes out of any pieces |
| MpegSplit.FeedBetween | include/pl_mpeg/pl_mpeg.h:2175-2278 | both bounds together |
| MpegSplit.SplitMatters | include/pl_mpeg/pl_mpeg.h:2260-2263 | all splittings of a stream whose headers fit sixteen bytes give the same packets if and only if no packet comes after the first header that is not valid |
| MpegSplit.SplitDoesNotMatter | include/pl_mpeg/pl_mpeg.h:2175-2278 | in such a stream, when its headers are valid, every splitting gives the packets of the whole |
| MpegMux.KindsAre | include/pl_mpeg/pl_mpeg.h:589-594 | just one private stream, the four audio streams and the first video stream are given as packets |
| MpegMux.FieldsRead | include/pl_mpeg/pl_mpeg.h:2225-2264 | a header written with any stuffing, buffer size and time stamps is read up to its payload |
| MpegMux.UnitRead | include/pl_mpeg/pl_mpeg.h:2175-2278 | a packet that is written is given with its kind and payload, and other start codes are passed |
| MpegMux.StreamRead | include/pl_mpeg/pl_mpeg.h:2175-2278 | whatever is multiplexed comes out, in order, and what follows it comes out after it |
| MpegMux.TailRead | include/pl_mpeg/pl_mpeg.h:2199-2213 | twelve zeros and an end code after the last packet give none |
| MpegMux.Demultiplex | include/pl_mpeg/pl_mpeg.h:2175-2278 | round trip: the packets of any multiplexed stream come out of the decoder |
| MpegVideo.NewerIsLast | include/pl_mpeg/pl_mpeg.h:3074-3108 | the newer reference is the last reference picture |
| MpegVideo.DeliverOnce | include/pl_mpeg/pl_mpeg.h:2855-2919 | every picture is returned once and nothing else is, but for the last reference of a sequence that ends in bidirectional pictures |
| MpegVideo.DeliverAll | include/pl_mpeg/pl_mpeg.h:2866-2881 | all pictures are returned just when the sequence ends with a reference |
| MpegVideo.DeliverSorted | include/pl_mpeg/pl_mpeg.h:2902-2913 | pictures are returned in the order of the pictures that are decoded when they are shown |
| MpegVideo.ReferencesInOrder | include/pl_mpeg/pl_mpeg.h:2905-2913 | references are returned in decoding order |
| MpegVideo.BetweenReferences | include/pl_mpeg/pl_mpeg.h:2902-2904 | every bidirectional picture is returned between its two references |
| MpegVideo.Video.constructor | include/pl_mpeg/pl_mpeg.h:2779-2792 | three different frames, no reference yet |
| MpegVideo.Video.DecodePicture | include/pl_mpeg/pl_mpeg.h:3074-3108 | the frames stay a permutation; the picture is decoded from the references it needs into a frame that is none of them |
| MpegVideo.RefsOfMore | include/pl_mpeg/pl_mpeg.h:2862-2898 | pictures that arrive later change no reference, so frames stay right |
| MpegVideo.Video.Decode | include/pl_mpeg/pl_mpeg.h:2855-2919 | the returned frame holds the picture that is due, decoded from the right references; until the end is known the last picture is left undecoded |
| MpegVideo.Video.Drain | include/pl_mpeg/pl_mpeg.h:2855-2919 | taking frames until none comes gives the images that are due |
| MpegVideo.Play | include/pl_mpeg/pl_mpeg.h:2855-2919 | a sequence that arrives in any parts, with frames taken after each and at the end, gives the images of its pictures in delivery order |
| MpegVideo.OlderIsBefore | include/pl_mpeg/pl_mpeg.h:3074-3081 | the older reference is the last reference picture before the newer one |
| MpegVideo.NoneYet | include/pl_mpeg/pl_mpeg.h:3013-3015 | before any reference picture both references are blank |
| MpegVideo.PredictedFrom | include/pl_mpeg/pl_mpeg.h:3076-3081 | an intra picture needs no other; a predictive one is predicted from the last reference picture before it |
| MpegVideo.MadeBetween | include/pl_mpeg/pl_mpeg.h:3299-3315 | a bidirectional picture is made from the two reference pictures between which it is returned |
| MpegMotion.DeltaIsLittle | include/pl_mpeg/pl_mpeg.h:3258-3274 | the increment is the one of the standard |
| MpegMotion.DecodeIsStandard | include/pl_mpeg/pl_mpeg.h:3258-3284 | the wrapped vector is the one of section 2.4.4.2, in range, and congruent to previous plus increment |
| MpegMotion.Reachable | include/pl_mpeg/pl_mpeg.h:3258-3284 | every vector in range can be reached from every other |
| MpegMotion.DeltasInOrder | include/pl_mpeg/pl_mpeg.h:3258-3274 | codes and residuals count the increments through, one by one, negative codes the negative ones |
| MpegMotion.GoesRound | include/pl_mpeg/pl_mpeg.h:3275-3282 | from the end of its range, which the size of the residual sets, a vector goes on at its beginning |
| Base64.CharsAndValues | plib/lib/packer.ts:48-52 | base64 digits and their values determine each other |
| Base64.DecodeEncode | plib/lib/packer.ts:48-52 | decoding base64 text of even length and encoding it again gives it back, but for the dropped bits of a last group of two |
| Base64Bits.CharIs | plib/lib/packer.ts:49-49 | the characters are those of table 1 of RFC 4648, in its order |
| Base64Bits.EncodeBits | plib/lib/dirhandle.ts:102-102 | every character of an encoding is the next six bits, the last ones filled up with zeros, and the text is filled up to groups of four |
| Base64Bits.DecodeBits | plib/lib/dirhandle.ts:108-108 | decoded bytes have the bits of the characters, six by six |
| Packer.CreatePacked | plib/lib/packer.ts:16-24 | decimal codes of the characters, each followed by an x, padded to even length |
| Packer.UnpackChars | plib/lib/packer.ts:35-39 | the units of the tokens between the x, without zeros |
| Packer.UnitOfDecimal | plib/lib/packer.ts:37-37 | a decimal number is read back whatever follows it that is no digit |
| Packer.UnitsOfJoined | plib/lib/packer.ts:37-37 | the tokens of joined codes are the codes, whatever follows |
| Packer.Store | plib/lib/packer.ts:48-52 | what reaches the disk: packed text taken for base64 |
| Packer.Load | plib/lib/dirhandle.ts:100-104 | what comes from the disk: its bytes as base64, unpacked |
| Packer.OnDisk | plib/lib/packer.ts:16-52 | what comes back is the first unit of every character, without zeros |
| Packer.RoundTrip | plib/lib/packer.ts:16-52 | text comes back as it was just if it has no zero unit and no character of two units |
| Packer.NumberIsPositional | plib/lib/packer.ts:37-37 | a code is read as a decimal number |
| Packer.NoPairs | plib/lib/packer.ts:18-18 | without surrogates every unit is a character of its own |
| Packer.HelloIsPacked | plib/lib/packer.ts:9-12 | the example of the documentation |
| Packer.SurrogatesAre | plib/lib/packer.ts:18-18 | the two kinds of surrogates are told by their six highest bits |
| Packer.CodesAre | plib/lib/packer.ts:18-18 | of every character of a text the first unit of its UTF-16 form is stored |
| Packer.CharactersOnDisk | plib/lib/packer.ts:16-52 | what comes back from the disk are the first units of all characters but zero |

## Left out

- Inflate.ZlibDecode: an expandable output must start with at least one byte, because doubling zero never ends; the list form of the result stands for the buffer and its length.
- Bands.RenderBands: rows of different bands are different memory; the words and caches that threads share are not modelled, nor the wrap-around of the 32-bit counters.
- Raster.RenderPrim: where the rows of triangles begin and end, which texture row a row of a rectangle has, and the first attributes and steps of a row come from functions that stand for the float arithmetic; the framebuffer has two dimensions instead of a stride.
- Emit.EmitRange: the geometry tests of rectangles and triangles are two functions that accept or decline.
- Gif.Gif.LoadFrame: positions are counted in pixels and rows; for minimum code sizes outside 2 to 8 only safety and the outcome of the decoder's own table are stated. Header, global colour table (a parameter, as is the transparent index), extensions, disposal of frames, the history of touched pixels and the rest of the sub-blocks after the end code are not modelled.
- Png.Png.CreateRaw: samples of sixteen bits are values, without the byte order of the machine.
- MpegBuffer.Buffer.Has: loading by callback is not modelled.
- MpegBuffer.Buffer.Read: values are not cut to 32 bits, and sizes do not wrap; callers read at most 16 bits at a time. Seeking is not modelled.
- MpegDemux.Demux.Decode: begins after the stream headers; packets are given without their time stamps.
- MpegSplit.SplitMatters: for streams in which every header that is reached fits sixteen bytes; for the others only the reading of the header itself is compared, in `LongSplits`.
- MpegVideo.Video.Decode: pictures are intra, predictive or bidirectional with valid motion codes. An ignored picture leaves the start code behind, so that the next call parses the middle of it; that is not modelled. Pixels, slices and times are left out.
- JpegEncode.Decode: the blocks of one component that is not interleaved; how many they are is given.
- JpegBlock.DecodeBlock: progressive scans, restart intervals and frames are not modelled.
- Packer.UnpackChars: of the number syntax of the language only leading digits are modelled, which is all that packed text has; signs, spaces and hexadecimal prefixes are not.
- The inverse transforms, colour conversion, vector kernels and the other image formats: arithmetic of their own or field reads.
- File access, callbacks, error texts and allocation failure.
- The terminal front end, the archive commands and the game code.
