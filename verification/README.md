# Verification of 3dstool's codecs, RomFS builder and patch engine

This project models the parts of 3dstool whose correctness is decided by the code itself, and proves what that
code is for. `dafny verify dfyconfig.toml` checks all of it.

- **Backward LZ77** (`Backward*.dfy`). The decoder expands within one buffer, downwards over the bytes it still has
  to read. The encoder makes that safe: it re-reads its own output, keeps a prefix of the data verbatim and writes a
  footer. Proved: the in-place round trip, the safety of every write, exactly when the encoder's scan leaves its
  buffer, and that every input with a short enough stream is compressed.
- **Huffman** (`Huffman*.dfy`). A greedy code tree in a flat table, laid out in byte pairs linked by six-bit offsets,
  followed by a bit stream in byte-swapped words. Proved: the round trip of every half-byte file and of every byte
  file whose codes have at most 25 bits, exactly which files with longer codes come back, the depth bound, that no
  tree of up to 256 leaves overflows an offset, and that a size bound that does not wrap suffices.
- **LZ77, LZ77Ex, Yaz0** (`Lz77.dfy`, `Yaz0.dfy` and the modules they share). A circular window indexed by 256 linked
  lists; the encoders search along these lists. Proved: the lists always agree with the last bytes read, the
  searches find what trying every position would find, every repeat in reach is met by a match at least as long,
  round trips for every input, and exactly when the size bounds suffice.
- **Run length** (`RunLength.dfy`). Round trip, maximal runs, and exactly when the bound suffices.
- **RomFS** (`RomFs*.dfy`). The streaming four-level hash tree equals its batch definition and gives every block its
  digest, every file stands in the image where its entry says, relocation against a reference image never overlaps
  and always takes the lowest hole, pruning leaves exactly the needed directories with correct links, and the hash
  tables find every entry.
- **Patch** (`Patch*.dfy`). Making and applying a patch gives the new file; moves of parts never destroy a part that
  waits; the zero fill behind parts that shrink is harmless for exactly the layouts given here; where it is, the
  patched file has the header and every part of the new one.
- **Free ranges** (`Space.dfy`). The list is canonical and denotes union and difference of ranges.

Codecs are proved in two layers: a sequence of tokens with its expansion, and the bytes that store it. Where the
source works step by step, methods with loops over arrays or classes with the source's fields are proved equal to a
specification function, and lemmas state what holds of that function. Pointers are indices. SHA-256 is a parameter
of which only the length of the result is used. Buffers have a length and a `capacity`, and nothing beyond the
capacity is ever changed.

## Model

| member | source | states |
|---|---|---|
| BackwardSafety.RoundTrip | src/backwardlz77.cpp:20-227 | Whenever the encoder finishes a file, decoding it within one buffer, over its own source and whatever the rest of the buffer held, gives exactly the data. |
| BackwardSafety.SafeInPlace | src/backwardlz77.cpp:35-84 | At every step of decoding a finished file the write cursor is at or above the read cursor and that is at or above the prefix, so no unread byte and no prefix byte is overwritten. |
| BackwardSafety.FileFormed | src/backwardlz77.cpp:206-223 | A finished file is a multiple of four bytes and shorter than the data: a prefix of the data, the stream, 0xFF up to a multiple of four, and the two words of the footer. |
| BackwardSafety.OutputLeads | src/backwardlz77.cpp:173-205 | Up to the cut, as many bytes of output as of stream remain, or more: literals keep the difference, flag bytes raise it, and the first match that would turn it is the cut. |
| BackwardSafety.RunPlan | src/backwardlz77.cpp:35-84 | From any point of the stream, with the output so far above and the stream intact below, the decoder completes the data and is safe on the way. |
| BackwardCoder.Uncompress | src/backwardlz77.cpp:20-96 | The destination afterwards, for every input: footer checks, copy and in-place expansion, with failure exactly where the checks fail. |
| BackwardCoder.CopyDownwards | src/backwardlz77.cpp:70-73 | A copy that overlaps its own output, byte by byte downwards. |
| BackwardCoder.Expand | src/backwardlz77.cpp:35-84 | The decoding loop, malformed streams included, does what the in-place semantics says and touches nothing above the output. |
| BackwardCoder.EncodeLoop | src/backwardlz77.cpp:108-157 | The loop writes the greedy parse of the data from its end, token by token, and stops with success or failure exactly when the specification does. |
| BackwardCoder.FindToken | src/backwardlz77.cpp:117-119 | The indexed search decides the same token as the reference parse, whose choice is characterised in ParseMatches. |
| BackwardCoder.EmitMatch | src/backwardlz77.cpp:131-141 | The flag bit is set and the two bytes are stored downwards, exactly if there is room. |
| BackwardCoder.Scan | src/backwardlz77.cpp:167-205 | The scan re-reads the stream and returns the first cut, no cut, or that it leaves the buffer. |
| BackwardCoder.Gather | src/backwardlz77.cpp:218-219 | Copying the prefix before moving the stream harms nothing: afterwards the prefix of the data is followed by the old stream. |
| BackwardCoder.Compress | src/backwardlz77.cpp:98-227 | The three outcomes for every input: refused, a finished file with exactly these bytes, or a scan that leaves its buffer; ShortStreamSucceeds and ConstantSucceeds say when a file is finished and how long it is. |
| BackwardEdges.RunsOffIff | src/backwardlz77.cpp:111 | For all data: the scan leaves its buffer if and only if the output fills exactly with a flag group while input is left and no match has brought the input ahead. |
| BackwardEdges.CutIsAhead | src/backwardlz77.cpp:187-194 | When the output is full, the scan cuts exactly at matches behind which more input has been read than output written. |
| BackwardEdges.MatchFreeOutcome | src/backwardlz77.cpp:98-227 | Data without matches is never compressed: the scan leaves its buffer if nine divides the size and the encoder refuses otherwise. |
| BackwardEdges.NineBytesRunOff | src/backwardlz77.cpp:173-182 | Any nine different bytes make the scan leave its buffer. |
| BackwardEdges.ShortStreamSucceeds | src/backwardlz77.cpp:98-227 | Data whose stream is at least twelve bytes shorter, and below 16 MiB, are always compressed to a finished file, of at most eleven bytes more than the stream. |
| BackwardEdges.ConstantSucceeds | src/backwardlz77.cpp:98-227 | From 29 equal bytes up to just under 128 MiB of them the encoder finishes a file, of about one bit for a byte. |
| HuffmanTree.ConstructTree | src/huffman.cpp:358-440 | The finished table holds a greedy code tree over the counted symbols, with parents, depths, codes and sizes, no taller than the total allows; each entry above the symbols has joined the first two that waited in order of weight and then number, the first of them on its left, and without two symbols that occur the root has the one that does, or else symbol 0, twice. |
| HuffmanTree.FindLightest | src/huffman.cpp:366-395 | Each scan finds the lightest waiting entry, the first among equals. |
| HuffmanTree.JoinedMore | src/huffman.cpp:420-437 | A round that joins the two entries found has joined the first two of all that wait, by weight and then by number, and leaves all earlier joins as they were. |
| HuffmanTree.TallIsHeavy | src/huffman.cpp:358-440 | A greedy tree of height h over symbols that occur weighs at least Fib(h + 2). |
| HuffmanTree.DepthAtMost25 | src/huffman.cpp:218-264 | Fewer than 317811 symbols give codes of at most 25 bits, so the 32-bit stream register never overflows. |
| HuffmanTable.AddParentDepth | src/huffman.cpp:442-454 | Every node of both subtrees, and nothing else, becomes one level deeper. |
| HuffmanTable.AddCode | src/huffman.cpp:456-464 | Every node's code is its parent's code followed by its own bit; no other entry changes. |
| HuffmanTable.AddCountHWord | src/huffman.cpp:466-485 | Every internal node is given the number of byte pairs its subtree takes; no other entry changes. |
| HuffmanLayout.OffsetsExactIff | src/huffman.cpp:487-709 | All six-bit offsets of a layout are exact if and only if at most 64 nodes ever wait at once. |
| HuffmanLayout.FittingRunIsExact | src/huffman.cpp:487-605 | Safety over the whole run from any state: while at most 64 nodes wait every stored offset is exact. |
| HuffmanLayout.CrowdedRunOverruns | src/huffman.cpp:575-598 | Once more than 64 nodes wait, some offset is bound to come out wrong. |
| HuffmanLayout.RunStructured | src/huffman.cpp:494-604 | The run ends with every internal node placed once and none waiting. |
| HuffmanLayout.LargestFirst | src/huffman.cpp:576-597 | In the first pair with a waiting node no waiting node is larger than the one chosen, and the left one is chosen among equals. |
| HuffmanLayout.FillInOrder | src/huffman.cpp:638-664 | A subtree is placed level by level: byte pairs are given out in the order of their parents' bytes. |
| HuffmanFits.AlwaysFits | src/huffman.cpp:487-605 | No tree of at most 256 leaves ever has more than 64 nodes waiting: its layout is always exact. |
| HuffmanFits.SingleIsLate | src/huffman.cpp:574-598 | A node is placed alone only while fewer than 64 wait, and the later the more wait. |
| HuffmanScheduler.Info.constructor | src/huffman.cpp:315-337 | The working arrays start with blank entries, idle pairs and one pair in use. |
| HuffmanScheduler.Info.SetOneNodeOffset | src/huffman.cpp:666-709 | The arrays go from showing a layout to showing it with that one node placed. |
| HuffmanScheduler.Info.MakeSubsetHuffTree | src/huffman.cpp:638-664 | The arrays go from showing a layout to showing it with the whole subtree placed, level by level. |
| HuffmanScheduler.Info.RemainingNodeCanSetOffset | src/huffman.cpp:607-636 | True exactly if, after that many pairs, every waiting node can still reach its place. |
| HuffmanScheduler.Info.FindSubset | src/huffman.cpp:508-564 | The subtree chosen is the last feasible one, since the best cost is never updated. |
| HuffmanScheduler.Info.FindSingle | src/huffman.cpp:576-597 | The node chosen is the first pair's waiting node, the right one if its subtree is larger; LargestFirst says so of both. |
| HuffmanScheduler.Info.MakeHuffTree | src/huffman.cpp:487-605 | The arrays end up showing exactly the layout whose properties are proved in HuffmanLayout. |
| HuffmanCode.CodeInTable | src/huffman.cpp:442-464 | Depth and code of a symbol's entry are the length and the digits of its path from the root. |
| HuffmanCode.LayoutRealises | src/huffman.cpp:666-709 | Walking the bytes of an exact layout by offsets and leaf marks is walking the tree. |
| HuffmanCode.LayoutAccepted | src/huffman.cpp:133-170 | The byte tree of an exact layout passes the check that the decoder makes first. |
| HuffmanCode.VerifyHuffmanTable | src/huffman.cpp:133-170 | The check with its bitmap accepts exactly the sections that the declarative definition accepts. |
| HuffmanCode.DecodeEncoded | src/huffman.cpp:66-110 | Following the codes of any symbols through the byte tree gives the symbols back, whatever bits follow. |
| HuffmanStream.PushEncodes | src/huffman.cpp:225-236 | Shifting a code into the register and draining whole bytes appends exactly its digits, while at most 32 are in flight. |
| HuffmanStream.PushStores | src/huffman.cpp:225-236 | Shifting in a code of fewer than 32 bits appends it, and the oldest pending digits for which there is no room are stored as zeros. |
| HuffmanLoss.StoredIff | src/huffman.cpp:220-269 | The digits stored for a run of symbols are their codes if and only if nothing that matters is pushed out. |
| HuffmanLoss.DecodedStands | src/huffman.cpp:62-100 | Whatever symbols are decoded, the digits begin with their codes: no other digits give the same symbols. |
| HuffmanStream.FinishUnpacks | src/huffman.cpp:270-287 | The finished stream starts with exactly the digits pushed. |
| Huffman.RoundTrip | src/huffman.cpp:36-313 | Decoding gives the data back, for both symbol sizes and every alignment, whenever the codes have at most 25 bits, which is sufficient; the exact condition is in the next row. |
| Huffman.RoundTripIff | src/huffman.cpp:36-313 | For codes of fewer than 32 bits, decoding gives the data back if and only if no code, as it arrives, pushes a one out of the 32-bit register: a condition on the codes and the order of the symbols. |
| Huffman.NibbleRoundTrip | src/huffman.cpp:119-122 | The round trip of half-byte files on every input, without a condition on the codes. |
| Huffman.ByteRoundTrip | src/huffman.cpp:124-127 | The round trip of byte files of fewer than 317811 bytes, whatever their bytes. |
| Huffman.FileFormed | src/huffman.cpp:180-199 | A file begins with the tag, the bits of a symbol and the size, in one word or in two; tree and stream follow, and as few zeros as the alignment needs. |
| Huffman.HalvesInOrder | src/huffman.cpp:343-349 | A byte of a half-byte file is its low half and then its high half. |
| Huffman.SwappedAt | src/huffman.cpp:292-295 | Byte j of a stored word is byte 3 - j of the word of the stream. |
| HuffmanLongCodes.SpineDepth | src/huffman.cpp:358-440 | If every symbol weighs as much as all lighter ones together, the greedy tree is a spine, and this is the length of each code. |
| HuffmanLongCodes.NotRestored | src/huffman.cpp:225-236 | A file of 64 MiB with 27 byte values whose longest codes have 26 bits is not read back, whatever greedy tree the coder builds for it. |
| HuffmanCoder.CountData | src/huffman.cpp:339-356 | The table holds how often each symbol occurs. |
| HuffmanCoder.EncodeData | src/huffman.cpp:220-269 | The loop over bytes or half bytes appends what feeding all symbols to the bit stream yields, and fails only for lack of room. |
| HuffmanCoder.SwapInPlace | src/huffman.cpp:292-295 | Every word of the stream is reversed in place and nothing else changes. |
| HuffmanCoder.Compress | src/huffman.cpp:172-313 | The file of a greedy code tree for the data is written exactly if it fits, and failure means it does not. |
| HuffmanBound.BoundSuffices | src/huffman.cpp:31-34 | A buffer of the size of a bound that does not wrap holds the file of any data, however skewed its frequencies: codes stay below 64 bits and the tree within 512 bytes. |
| HuffmanBound.BoundWraps | src/huffman.cpp:31-34 | For half a gigabyte the bound is 520, too small for every such input of either symbol size. |
| HuffmanBound.WrapCanBeHarmless | src/huffman.cpp:31-34 | There are sizes and alignments for which the sum wraps and every half-byte file still fits. |
| HuffmanDecoder.DecodeBit | src/huffman.cpp:73-108 | One bit moves the walk, delivers a symbol at a leaf and flushes a full word, keeping what remains to be decoded. |
| HuffmanDecoder.Uncompress | src/huffman.cpp:36-117 | The words gathered and stored by the decoder are the decoded bytes; failure exactly where the checks fail. |
| SlidingWindow.Window.constructor | src/lz77.cpp:309-321 | An empty window agrees with an empty history. |
| SlidingWindow.Window.DropOldest | src/yaz0.cpp:335-347 | Taking the head off one list, with its links in both directions. |
| SlidingWindow.Window.Append | src/yaz0.cpp:352-363 | Putting a place at the end of one list, with its links in both directions. |
| SlidingWindow.Window.SlideByte | src/lz77.cpp:382-423 | After any number of slides, for every byte value the forward chain lists exactly its positions among the last bytes, oldest first, and the backward chain is its reverse. |
| MatchSearch.SearchOldest | src/lz77.cpp:323-372 | Searching along the chain finds what trying every window position would: the longest match at distance two or more, the farthest among equals. |
| MatchSearch.SearchNewest | src/yaz0.cpp:270-315 | The same for Yaz0, the nearest among equals. |
| MatchSearch.SearchBackward | src/backwardlz77.cpp:248-298 | The same for backward LZ77: distance three or more, never longer than the distance. |
| MatchSearch.Slide | src/lz77.cpp:374-380 | Sliding several bytes keeps the window in agreement with the data read. |
| GreedyParse.BestMatchIsLongest | src/lz77.cpp:323-372 | No usable match in the window is longer than the one found; ties go to the farthest or the nearest. |
| GreedyParse.BestMatchIsMatch | src/lz77.cpp:323-372 | The match found repeats the data and can be stored. |
| GreedyParse.ParseExpands | src/lz77.cpp:213-285 | The greedy parse of any data, Yaz0's lookahead included, expands to the data. |
| ParseMatches.NextIsWellChosen | src/lz77.cpp:224-283 | At every place of any data the encoder's token is the right one, in terms of the data alone: a match repeats the data within the format's reach, and wherever at least three bytes repeat within it the token is a match at least as long, except that Yaz0 prefers a literal if a longer repeat begins one byte later. |
| ParseMatches.ParseIsWellChosen | src/yaz0.cpp:139-216 | So is every token of the parse, at the place where the tokens before it end. |
| ParseMatches.ConstantIsShort | src/lz77.cpp:213-285 | The stream of equal bytes takes about one bit for a byte, for LZ77Ex a thousandth and for Yaz0 a tenth of one. |
| TokenStream.ParseMatchBytes | src/lz77.cpp:246-274 | The one-, two- and three-byte length forms are read back exactly and cannot be confused. |
| TokenStream.ShortForms | src/lz77.cpp:238-281 | The bytes of a literal and a match in the short form, in all four formats. |
| TokenStream.LongForms | src/lz77.cpp:249-270 | The bytes of a literal and a match in the longer forms of LZ77Ex and Yaz0. |
| TokenStream.DecodeEncoded | src/lz77.cpp:64-159 | Decoding stored tokens gives their expansion, whatever stands before and after them. |
| FlagGroups.FlagBits | src/lz77.cpp:243 | The bit set for an item in its flag byte is the bit the decoder tests. |
| StreamReader.DecodeStream | src/lz77.cpp:64-159 | The decoding loop of LZ77, LZ77Ex and Yaz0 computes the decoder's semantics on every stream and stays in its buffer. |
| StreamWriter.StreamBound | src/lz77.cpp:30-33 | A stream takes at most nine bytes for eight of data. |
| Lz77.RoundTrip | src/lz77.cpp:35-307 | Every input, both formats, every alignment: decompressing the compressed file gives the data. |
| Lz77.FileFormed | src/lz77.cpp:187-208 | A file begins with its tag and the size, in one word or in two; the stream follows, and as few zeros as the alignment needs. |
| Lz77.ConstantFile | src/lz77.cpp:181-307 | The file of equal bytes is short: eight bytes of header and about one bit for a byte, or a thousandth of one. |
| Lz77.BoundSufficesIff | src/lz77.cpp:30-33 | A buffer of the size of the bound holds the file of all data of a given size if and only if the 32-bit sum does not wrap, for every alignment that a signed 32-bit number can hold. |
| Lz77.BoundSuffices | src/lz77.cpp:30-33 | A buffer of the size of a bound that does not wrap is always large enough. |
| Lz77.BoundWraps | src/lz77.cpp:30-33 | For 4 GiB less one byte the bound is 8, too small for every such input. |
| Unmatched.CountingStream | src/lz77.cpp:213-285 | There are data of every length in which no encoder of the family finds a match; their stream has nine bytes for eight. |
| Lz77.WriteMatch | src/lz77.cpp:238-274 | A match is stored in its length form exactly if it fits. |
| Lz77.FindToken | src/lz77.cpp:224-226 | The indexed search decides the token of the reference parse, whose choice is characterised in ParseMatches. |
| Lz77.Compress | src/lz77.cpp:181-307 | The compressed file is written exactly if it fits, and failure means it does not. |
| Lz77.Uncompress | src/lz77.cpp:35-165 | What the destination holds afterwards, for every input, malformed ones included. |
| Yaz0Codec.RoundTrip | src/yaz0.cpp:24-249 | Every input and alignment, with lazy matching across flag groups. |
| Yaz0Codec.FileFormed | src/yaz0.cpp:127-130 | A file begins with "Yaz0", the size, the alignment property and a zero word, most significant byte first; the stream follows, and as few zeros as the alignment needs. |
| Yaz0Codec.ConstantFile | src/yaz0.cpp:116-249 | The file of equal bytes is short: sixteen bytes of header and about a tenth of a bit for a byte. |
| Yaz0Codec.BoundSufficesIff | src/yaz0.cpp:19-22 | The same for Yaz0: the bound suffices for all data of a size if and only if its sum does not wrap. |
| Yaz0Codec.BoundSuffices | src/yaz0.cpp:19-22 | A buffer of the size of a bound that does not wrap is always large enough. |
| Yaz0Codec.MatchHere | src/yaz0.cpp:150-161 | The remembered match is the best match at the present position, also at the start of a flag group. |
| Yaz0Codec.FindToken | src/yaz0.cpp:150-216 | The token decided is that of the reference parse, whose choice is characterised in ParseMatches, and the window has slid over each of its bytes once. |
| Yaz0Codec.WriteMatch | src/yaz0.cpp:192-215 | A match is stored in two or three bytes exactly if it fits. |
| Yaz0Codec.Compress | src/yaz0.cpp:116-249 | The compressed file is written exactly if it fits, and failure means it does not. |
| Yaz0Codec.Uncompress | src/yaz0.cpp:24-114 | What the destination holds afterwards, for every input, malformed ones included. |
| RunLength.RoundTrip | src/runlength.cpp:33-220 | Every input and alignment: decompressing the compressed file gives the data. |
| RunLength.FileFormed | src/runlength.cpp:112-131 | A file begins with its tag and the size, in one word or in two; the stream follows, and as few zeros as the alignment needs. |
| RunLength.RunIsMaximal | src/runlength.cpp:176-189 | A run is 130 bytes long or ends with the data or before another byte. |
| RunLength.RawIsFree | src/runlength.cpp:142-160 | No three equal bytes begin at any byte that is stored raw. |
| RunLength.ConstantEncoded | src/runlength.cpp:135-199 | The exact stream of any number of equal bytes: full runs, then a shorter one or at most two raw bytes. |
| RunLength.BoundSufficesIff | src/runlength.cpp:28-31 | A buffer of the size of the bound holds the file of all data of a given size if and only if it has room for the longest file, one byte more for every 128 begun, which alternating bytes reach. |
| RunLength.EncodedBound | src/runlength.cpp:135-199 | No stream is longer than that, and one that begins with a run is shorter. |
| RunLength.BoundWraps | src/runlength.cpp:28-31 | For 2 GiB the bound is 8, too small for every such input. |
| RunLength.BoundSuffices | src/runlength.cpp:28-31 | A buffer of the size of a bound that does not wrap is always large enough. |
| RunLength.ScanRaw | src/runlength.cpp:142-160 | The first inner loop finds how many bytes go raw, up to 128: no three equal bytes begin at any of them, and a run follows exactly if three begin behind them. |
| RunLength.ScanRun | src/runlength.cpp:176-189 | The second inner loop finds the length of the run: 130, or up to the end or the first other byte. |
| RunLength.WriteRaw | src/runlength.cpp:161-173 | A raw piece is stored exactly if it fits. |
| RunLength.WriteRun | src/runlength.cpp:190-196 | A run is stored in two bytes exactly if they fit. |
| RunLength.Compress | src/runlength.cpp:107-220 | The compressed file is written exactly if it fits, and failure means it does not. |
| RunLength.Uncompress | src/runlength.cpp:33-105 | What the destination holds afterwards, for every stream that the loop does not read beyond. |
| RomFsHash.HashTree.constructor | src/romfs.cpp:896-925 | The sizes and places of the four levels, and empty buffers at their starts. |
| RomFsHash.HashTree.WriteBuffer | src/romfs.cpp:986-1016 | Bytes are appended to a level; full blocks are flushed and their hashes fed to the level below, recursively, and the tree stays consistent. |
| RomFsHash.HashTree.AlignBuffer | src/romfs.cpp:1042-1046 | A level is padded with zeros to the alignment, and a block filled that way is flushed. |
| RomFsHash.HashesDoNotStraddle | src/romfs.cpp:991-1014 | A level fed with hashes always has room for a whole one in its open block. |
| RomFsHash.LayoutSizes | src/romfs.cpp:906-925 | Each region is its level's size rounded up to blocks, and the regions follow each other. |
| RomFsHash.HashTree.Update | src/romfs.cpp:927-984 | Streaming the header and the pieces of the content leaves each level of the batch definition at the front of its region with zeros behind, and exactly the batch image if the content needs as many blocks as were laid out. |
| RomFsContent.PieceStands | src/romfs.cpp:927-978 | The pieces of the content stand one behind the other: data as they are, a skipped stretch as zeros, and padding as zeros up to the next multiple of 16. |
| RomFsContent.LayoutArranged | src/romfs.cpp:896-925 | The header with its digests comes first, then the content and the two regions of digests, each of just the blocks it needs. |
| RomFsContent.CoveredIff | src/romfs.cpp:979-982 | In the image every block of the content and of the two levels above the header has its digest, 32 bytes for 4096, in the region below, if the content needs as many blocks as were laid out, and (for a hash that is never zero at the front) only then. |
| RomFsContent.HeaderStands | src/romfs.cpp:930-933 | The header is at the front of the image and the content at the front of its region. |
| RomFsFiles.FileList.PushFileEntry | src/romfs.cpp:356-372 | Each file is given the first multiple of 16 behind the file before it, and the size becomes its end. |
| RomFsFiles.InOrderStands | src/romfs.cpp:950-961 | In an image laid out in order every file stands where its entry says, behind what precedes the files, and nothing else follows. |
| RomFsFiles.OffsetOrder | src/romfs.cpp:964-972 | The files with data are listed by rising offset, each once. |
| RomFsFiles.RemappedStands | src/romfs.cpp:962-978 | In a remapped image every file with data stands where its entry says, whatever gaps are left, and nothing else follows. |
| RomFsFiles.Create | src/romfs.cpp:927-984 | Building an image in order, by the methods themselves: header, entries and every file stand where they are recorded, and every block has its digest. |
| RomFsFiles.CreateRemapped | src/romfs.cpp:927-984 | Building the image of files that have been relocated: the same for every file with data; every block has its digest if what is written ends in the last block of the recorded size, and (for a hash that is never zero at the front) only then. |
| RomFsFiles.EmptyFileStays | src/romfs.cpp:756-764 | A reference image and a new listing for which it does not, whatever the relocation does: an empty file that stays behind one that is gone. |
| RomFsRemap.RomFs.Remap | src/romfs.cpp:697-807 | Against a packed reference image: every file gets an aligned place inside the final size, no two overlap, and every file that may stay has stayed. Just the others go, by rising level and within a level in the order of the reference image and then of the new one, each into the lowest hole that is long enough, leaving the size as it is, or else to the aligned end; at the start just what lies between the files that stayed is free, and the final size is what the last of these steps leaves. |
| RomFsRemap.TrimPacked | src/romfs.cpp:715-731 | A packed image cut off at the new start of the data is still packed. |
| RomFsRemap.StableOrder | src/romfs.cpp:784 | Waiting files are placed by rising ignore level, in the order of queueing within a level, each once. |
| RomFsRemap.SortedInTurn | src/romfs.cpp:784 | A queue in the order of the two passes is sorted by level, and within a level stays in that order. |
| RomFsRemap.PlacingSound | src/romfs.cpp:785-799 | Placing a file where nothing is, and nothing is free afterwards, keeps all placed files apart. |
| RomFsRemap.RomFs.VisitFile | src/romfs.cpp:738-766 | One reference file is released or kept, and the free ranges are exactly what has been given up so far. |
| RomFsRemap.RomFs.KeepFile | src/romfs.cpp:756-764 | A file that stays releases exactly the tail it no longer needs. |
| RomFsRemap.RomFs.CutTail | src/romfs.cpp:767-774 | After withdrawing what lies behind the last file that stays, exactly the offsets before the end of the data that are in none of the files that stay are free. |
| RomFsRemap.RomFs.QueueNew | src/romfs.cpp:775-783 | Every file that has no place waits exactly once, those of the reference image first and in its order. |
| RomFsRemap.RomFs.PlaceFile | src/romfs.cpp:788-798 | A waiting file takes the lowest run of free offsets that is long enough, which is just what is taken from the free ranges, and the size stays; without one it begins at the next multiple of 16 behind the data and the size is its end. No other file moves, and everything stays disjoint. |
| RomFsRemap.RomFs.PlaceAll | src/romfs.cpp:784-799 | The waiting files are placed one after the other, in their turn, each as PlaceFile says; afterwards the relocation is complete and overlap-free. |
| RomFsDirs.Tables.CreateEntryList | src/romfs.cpp:471-490 | Listing a directory appends its subdirectories and files in order and keeps the table linked. |
| RomFsDirs.Tables.PushDirEntry | src/romfs.cpp:322-346 | A directory entry is appended and linked behind its sibling. |
| RomFsDirs.Tables.PushFileEntry | src/romfs.cpp:348-374 | A file entry is appended and linked behind its sibling. |
| RomFsDirs.LinksEnumerate | src/romfs.cpp:322-374 | In a linked table, first-child and sibling links enumerate each directory's subdirectories and files exactly, in order. |
| RomFsDirs.WithDirLinked | src/romfs.cpp:322-346 | Appending a directory to the parent being listed keeps the table linked. |
| RomFsDirs.WithFileLinked | src/romfs.cpp:348-374 | Appending a file to the parent being listed keeps the table linked. |
| RomFsDirs.Tables.RemoveDirEntry | src/romfs.cpp:561-595 | All five kinds of index are shifted and relinked around the removed entry. |
| RomFsDirs.WithoutLinked | src/romfs.cpp:561-595 | Removing a directory that holds nothing keeps the table linked. |
| RomFsDirs.Tables.FindHollow | src/romfs.cpp:538-547 | The scan from the end finds a hollow directory unless none is left. |
| RomFsDirs.Tables.RemoveEmptyDirEntry | src/romfs.cpp:533-559 | It terminates with exactly the root and the directories with a file in their subtree; names, order, parents and files are kept and all links hold. |
| RomFsDirs.PrunedChildren | src/romfs.cpp:533-595 | After all shifts the links of each directory enumerate exactly its needed subdirectories, in their old order. |
| RomFsBuckets.ComputeBucketCount | src/romfs.cpp:623-642 | The first number from the count on that none of the small primes divides, with the rules for small counts. |
| RomFsBuckets.SomeHashes | src/romfs.cpp:1048-1056 | The hashes of three names, as numbers. |
| RomFsBuckets.HashTable.CreateHash | src/romfs.cpp:597-621 | Every bucket's chain is threaded through exactly its entries; names and parents are unchanged. |
| RomFsBuckets.LookupFinds | src/romfs.cpp:597-621 | Following the chain of an entry's bucket meets the entry, and meets exactly the entries of that bucket. |
| PatchFormat.ParseEncoded | src/patch.cpp:214-268 | Every command is read back as written, whatever follows: variable widths, relative or absolute seeks, size less one. |
| PatchFormat.Narrowest | src/patch.cpp:521-550 | A write takes the fewest bytes that are enough for its offset and for its size less one. |
| PatchFormat.FileFormed | src/patch.cpp:82-133 | A patch begins with its signature, the version and the distance to its last field, which is its length. |
| PatchDiff.Differ.WriteSeekWrite | src/patch.cpp:521-550 | The operands that hold the offset and the size are chosen and written; Narrowest says that no fewer bytes would do. |
| PatchDiff.Differ.WriteMove | src/patch.cpp:504-508 | A move command is appended. |
| PatchDiff.Differ.WriteChangeSize | src/patch.cpp:516-519 | A size change is appended. |
| PatchDiff.Differ.WriteTail | src/patch.cpp:474-488 | The bytes by which the file grows are written in runs of at most 64 KiB. |
| PatchDiff.Differ.CreateRange | src/patch.cpp:419-490 | The commands overwrite the file's range exactly where the old and new bytes differ, whatever the file holds, and carry exactly the differing bytes and the growth; each command is one run of differing bytes, as long as it can be up to 64 KiB. |
| PatchDiff.CarriedIsNew | src/patch.cpp:419-490 | If the file holds the old bytes wherever old and new agree, exactly the new range stands there afterwards. |
| PatchDiff.Differ.CreatePatch | src/patch.cpp:115-128 | The patch of any two files consists of commands that turn the old one into the new one, growth and truncation included, with no byte carried in vain. |
| PatchApply.Image.PadFile | src/utility.cpp:99-111 | The same byte is written again and again, a chunk at a time. |
| PatchApply.Image.ExecuteMove | src/patch.cpp:591-625 | The chunked move equals a move at once, for overlapping ranges in both directions. |
| PatchApply.Image.ExecuteCommand | src/patch.cpp:591-642 | Each command changes the file and the position as its meaning says. |
| PatchApply.Image.AlreadyHolds | src/patch.cpp:175-202 | The checks decide whether the file was patched before, and leave the file alone. |
| PatchApply.Image.RunCommands | src/patch.cpp:212-274 | The loop executes the stored commands up to the end mark and fails at an unknown one. |
| PatchApply.Image.ApplyPatch | src/patch.cpp:138-278 | Rejected, already patched, patched or broken: result and file for every patch. |
| PatchApply.RoundTrip | src/patch.cpp:56-278 | Applying the patch file of any commands that turn old into new to the old file gives exactly the new file. |
| PatchApply.CreateAndApply | src/patch.cpp:56-278 | Making the patch of any two files without a known structure and applying it to the old one, by the methods themselves, gives the new one. |
| PatchMoves.PlaceAbsent | src/ncch.cpp:344-357 | Filling in the offsets of absent parts makes all parts follow each other: an absent part gets the offset of the first part behind it that is there, a trailing one the end of the last part that is there. |
| PatchMoves.FindNext | src/patch.cpp:378-389 | The scan from the last part finds the one to be handled next. |
| PatchMoves.LaterWaits | src/patch.cpp:375-413 | Which parts still wait is decided by the layouts alone: a later part waits exactly if all parts up to it move down. |
| PatchMoves.NextIsSafe | src/patch.cpp:309-343 | The new range of the next part never meets the old range of another part that waits. |
| PatchParts.MovesCarry | src/patch.cpp:375-397 | Running the moves alone leaves, for any two layouts, each part's first min(old, new) bytes at its new offset. |
| PatchParts.PatchParts | src/patch.cpp:375-413 | The loop's commands, executed on the old file, have the effect of handling each part once by move, diff and zero fill. |
| PatchParts.WriteSet | src/patch.cpp:510-514 | A fill command is appended. |
| PatchParts.ClearFillsArrive | src/patch.cpp:375-413 | If every fill is clear, every part of the new file arrives and nothing else changes but the fills. |
| PatchParts.HarmfulFillLoses | src/patch.cpp:405-408 | If some fill is not clear, there are files of which a part is lost. |
| PatchParts.ArriveIffClear | src/patch.cpp:375-413 | The commands carry every part over, whatever the files hold, if and only if every fill is clear, a condition on the two layouts. |
| PatchParts.NotUpSpares | src/patch.cpp:405-408 | A part that shrinks without moving up never harms another. |
| PatchParts.UpAndDown | src/patch.cpp:405-408 | A layout of two parts for which the fill destroys the second. |
| PatchParts.FiveParts | src/patch.cpp:375-413 | Such a layout of five parts of which three are absent, with their offsets filled in as Analyze does. |
| PatchNcch.WriteCheck | src/patch.cpp:497-502 | A check command is appended. |
| PatchNcch.CreateNcch | src/patch.cpp:353-417 | The whole patch of such a file, with the check, the parts, the header and the size: its commands move only bytes that exist and make a known file of the old one. |
| PatchNcch.NcchArrives | src/patch.cpp:375-415 | If every fill is clear and no part reaches into the header, the header and every part of the new file stand in the result. |
| PatchNcch.NcchSize | src/patch.cpp:124-127 | The size of the result: that of the new file if it is shorter, and else exactly the furthest of the ends of the old file, the header and the parts, with the fills behind them. |
| PatchNcch.CreateAndApply | src/patch.cpp:56-278 | Making and applying such a patch: nothing happens if the hash of the header is the new one already; otherwise, if every fill is clear, header and parts of the new file arrive, and in any case the size is that of the new file if it is shorter, and else reaches exactly to the end of the old file, the header and the parts. |
| Space.CanonicalUnique | src/space.cpp:17-100 | Two canonical lists that denote the same set are equal: the order of adding and removing leaves no trace. |
| Space.Space.AddSpace | src/space.cpp:17-62 | A range is turned away exactly if one of its ends lies in a free range; otherwise the set grows by it, and the list stays canonical exactly if it met nothing free. |
| Space.EnclosedSpoils | src/space.cpp:28-32 | A free range strictly inside the new one goes unnoticed and spoils the list. |
| Space.Space.SubSpace | src/space.cpp:64-100 | It succeeds exactly for ranges that are free throughout, and removes exactly them. |
| Space.Space.GetSpace | src/space.cpp:107-118 | For a positive size the lowest run that fits, or -1 exactly if none does. |
| Space.Space.Clear | src/space.cpp:102-105 | Nothing is free afterwards. |

## Findings

Properties that turned out not to hold of the code, each with an input that shows it and its exact condition; only
for the Huffman bound is the condition sufficient and not necessary.

- **Backward LZ77, early stop** (`src/backwardlz77.cpp:111`). The encode loop also ends when the output is full, with
  input left over. When that happens just as a flag group ends, the encoder reports success; its scan then runs on
  below the stream, unless it finds a cut first. `BackwardEdges.RunsOffIff` gives the condition for all data. Without
  matches it is that nine divides the size (`MatchFreeOutcome`); nine different bytes are the smallest case
  (`NineBytesRunOff`).
- **Patch, zero fill** (`src/patch.cpp:405-408`). A part that moves up and shrinks is followed by a fill that can reach
  a part that still waits, or one that has already come down behind it. `PatchParts.FillsClear` is the condition on
  the two layouts, exact by `ArriveIffClear`; `UpAndDown` is a failing layout of two parts, `FiveParts` one of the
  five parts that a file has.
- **Free list, enclosing ranges** (`src/space.cpp:28`). `AddSpace` looks for an end of the new range inside an old one
  and so misses an old range strictly inside the new one. The list stays canonical exactly if the ranges were
  disjoint (`Space.Space.AddSpace`, `EnclosedSpoils`).
- **Bounds that wrap** (`src/lz77.cpp:30-33`, `src/yaz0.cpp:19-22`, `src/runlength.cpp:28-31`, `src/huffman.cpp:31-34`).
  The sums are 32-bit. For LZ77 and Yaz0 the bound suffices for all data of a size if and only if its sum does not
  wrap (`BoundSufficesIff`). For run length it suffices if and only if it has room for the longest file, which is
  shorter than the formula says, so that some sums that wrap do no harm (`RunLength.BoundSufficesIff`). For Huffman a
  sum that does not wrap suffices (`HuffmanBound.BoundSuffices`); one that wraps can be too small for every input
  (`BoundWraps`: 2^29 bytes) or large enough for every one (`WrapCanBeHarmless`). Which sizes are which depends on the
  longest file, and that is not determined here.
- **Huffman, long codes** (`src/huffman.cpp:225-226`). The stream register has 32 bits, of which up to seven are in use
  when a code arrives. The digits for which there is no room are lost, and read as zeros. For codes of fewer than 32
  bits the data come back if and only if no such digit is a one (`Huffman.RoundTripIff`). That is always so for codes
  of at most 25 bits, and so for half-byte files and for byte files of fewer than 317811 bytes.
  `HuffmanLongCodes.NotRestored` is a file that does not come back.
- **RomFS, empty files that stay** (`src/romfs.cpp:756-764`, `src/romfs.cpp:964-972`). A file that stays raises the
  recorded size up to its end even if it is empty, but only files with data are written. Where an empty file stays
  far behind the last file with data, blocks are laid out that are never written and get no digest.
  `RomFsFiles.CreateRemapped` gives the condition: all blocks have their digests if what is written ends in the last
  block of the recorded size, and (unless the hash can begin with a zero byte) only then. `EmptyFileStays` is a
  failing case.
- **Huffman, subtree choice** (`src/huffman.cpp:508-564`). The best cost is never updated, so not the largest feasible
  subtree is placed but the last one. This does no harm: no tree of up to 256 leaves ever overflows an offset
  (`HuffmanFits.AlwaysFits`).

## Left out

- HuffmanCoder.CountData: requires fewer than 2^32 symbols, beyond which the source's 32-bit counters may wrap.
- HuffmanCoder.Compress: requires fewer than 2^32 symbols, so half-byte input of 2 GiB and more, for which the source's 32-bit counters may wrap, is not covered.
- Huffman.RoundTripIff: says nothing about codes of 32 bits and more, which take at least 5702887 bytes: C++ leaves shifts by so much undefined. The encoder takes their counts modulo 32 here, as x86 does.
- HuffmanBound.BoundSuffices: has no converse, since the longest file of a size, over all data, is not determined.
- HuffmanDecoder.Uncompress: requires that the tree section describes a tree, since the source follows offsets without looking; the walk through other sections is not modelled.
- RunLength.Uncompress: requires that the stream does not end inside a piece, where the source reads on beyond it.
- BackwardCoder.Uncompress: requires that the size announced by the footer fits in 32 bits; the wrap of that sum is not modelled.
- PatchApply.Image.ExecuteMove: requires that the range moved lies in the file; a read beyond its end, which leaves old bytes in the source's buffer, is not modelled.
- PatchApply.Image.ExecuteCommand, PatchApply.Image.RunCommands: require the same of every move; the patches made here meet it.
- PatchApply.Image.ApplyPatch: requires the same of every move. A patch stream that ends inside a command counts as broken, where the source uses whatever its variables held.
- PatchApply.Image.AlreadyHolds: a check that reaches beyond the end of the file hashes the bytes that are there, where the source hashes a buffer of the full size whose rest is not initialised (src/patch.cpp:177-184).
- PatchParts.PatchParts: covers files that begin at the same offset, as CreatePatchFile has them; base offsets that differ occur only in the loop of createNcsdPatchFile.
- PatchNcch.NcchArrives: says nothing of bytes outside the header and the parts, to which the patch gives no new values.
- PatchMoves.NextIsSafe: holds of the loop of createNcsdPatchFile too, but the nested createNcchPatchFile for a partition that has been moved, with its own moves and fills (src/patch.cpp:325-338), is not modelled.
- RomFsRemap.RomFs.Remap: requires a reference image whose files are aligned and lie back to back, as this program writes them.
- RomFsFiles.CreateRemapped: blocks that are laid out and never written are zeros here; in the source they are holes of the file, and the file ends with the last block that is written. That digests are missing only then is proved for hashes that never begin with a zero byte.
- RomFsFiles.Create: what precedes the files (meta information, hash tables and entries) is one sequence of bytes, and the data of a file have the size that was recorded for it.
- RomFsBuckets.SomeHashes: only fixes the hash function by examples; that it spreads names well is not stated.
- RomFsDirs.Tables.CreateEntryList: takes the listing, sorted and filtered, of a directory not listed before; the stack that picks the next directory is not modelled.
- RomFsBuckets.ComputeBucketCount: counts are unbounded, so the 32-bit wrap next to 2^32 is not modelled.
- SlidingWindow.Window: keeps links in both directions for all users; LZ77 has only the forward ones and does not write the others.
- Yaz0 and LZ77 decoding share one loop, since they differ only in the flag's sense and the match forms.
- Huffman builds its tree after the check of the header size in the source and before it in the model; the result is the same.
- File sizes and positions are unbounded where the source has signed 64-bit ones.
- The offsets of entries in bytes (redirectOffset), the meta information and the header fields of a RomFS image beyond the level sizes: only arithmetic on sizes.
- Extraction of archives, command line, banner, ExeFS, NCSD and NCCH headers, encryption, downloads and the disassembly of code: outside the five engines, or thin layers over libraries.
- Real files, directories, character sets, regular expressions and messages: files are byte sequences with a position, listings and ignore levels are inputs.
