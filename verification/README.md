# Colibri: a verified model of the engine and its data plane

This project models the small algorithms of the Colibri inference engine and of its Python data plane that
promise to agree with something simpler, and proves that they do. It is Dafny 4.11; `dafny verify dfyconfig.toml`
verifies everything.

What the source changes in place is a class or a method over arrays here, proved against a specification function;
the results below are theorems about those functions, for all inputs, all runs or all reachable states.

**Decoding against a key/value cache** (`Blocks`, `KvSpec`, `KvLaws`, `KvDecode`; `engine/c/olmoe.c`). `KvSpec.Net`
holds the network with its float kernels as arbitrary functions of a row, and `KvLaws` says number by number what it
computes. `Net.Greedy` recomputes the whole prefix for every token. `Model.Generate` prefills, then decodes one token
at a time into the cache buffers, with the experts coming out of a least-recently-used store, and produces the same
tokens. `Model.Step` is the invariant behind it: cutting the stream into steps at other places leaves the same cache
contents and the same logits.

**Speculative decoding** (`SpecDecode`; `engine/c/glm.c`). Drafts are run through the same cache in one batch and kept
as far as the scan agrees. For any drafts whatever, `Speculate` says what greedy decoding says up to the first stop
token, in no more forward passes than tokens, and leaves the buffers holding the prefix it has said, though rejected
drafts have been written behind it.

**The expert cache, three ways** (`RecencyLru`, `SlotCache`, `ExpertCache`; `engine/c/olmoe.c`,
`local_data_plane/colibri.py`). The slot array with timestamps and the ordered dictionary both refine one recency
list; the list holds the most recently used distinct keys at every capacity, so a larger cache never misses where a
smaller one hits.

**The tokenizer** (`Probing`, `HashMap`, `Utf8`, `ByteLevel`, `Bpe`, `Regex`, `Pretok`, `Tokenizer`;
`engine/c/tok.h`). Encoding and then decoding gives back every byte string, valid UTF-8 or not, whatever counts as a
letter, a number or a space. The in-place merge loop rewrites the leftmost pair of lowest rank until none is left. The
hand-written scanner finds what a backtracking matcher finds for the pattern it stands for.

**The binary codec and its frames** (`BigEndian`, `Values`, `TextOrder`, `BinaryCodec`, `CodecLaws`, `Frames`;
`local_data_plane/binary.py`). Round trip, prefix-freeness, and the exact condition under which bytes are what the
writer would have written. The writer bounds each container and the reader the total number of values, so some values
can be written and not read back: `RoundTrip` says exactly which, and `WrittenButNotReadable` gives one. Frames
written one after another are read back as that list of frames.

**Streaming and admission** (`Chunks`, `Occurrences`, `StopFilter`, `EngineTurn`, `Scheduler`, `SchedulerLaws`;
`engine/c/openai_server.py`). Stop sequences across chunk boundaries, with the exact condition on the stops under
which the way the text was cut into chunks does not matter; sentinel framing a byte at a time, with the exact
condition on the sentinel; and a state machine for the concurrent admission queue, over every interleaving.

**Kernels** (`TensorIndex`, `Ranking`, `MoeRoute`, `TierSwap`, `TierChurn`, `Repin`, `BitPack`, `Hadamard`,
`TurboQuant`; `engine/c/st.h`, `engine/c/moe_route.h`, `engine/c/tier.h`, `local_data_plane/turboquant.py`). The
probed tensor index returns what the linear scan returns. Grouped top-k refines sort-and-take wherever there is an
expert for every rank, which for groups of one expert there is not: their scores are lost in the starting value they
are added to, and the code selects -1 (`FilledIff`, `GroupsOfOne`). For the hot store the exact conditions on the
heats are proved, all of them about 32-bit wrap-around: when every swap keeps its margin (`MarginAlwaysIffSteady`),
when nothing returns (`NothingReturnsIff`), when there are never more swaps than pins (`AtMostPinsIff`), and when
swapping ends at all, which is after at most one swap more than that (`EndsIff`); each allows all the heats that the
one before allows (`Hierarchy`). A decay makes any heats meet the first, so passes that end in one make at most one
swap more than there are pins, whatever the heats. Bit packing round trips; the Sylvester matrices are orthogonal and
the codec is exact on vectors that quantize without error.

**Two renderers of one chat contract** (`ChatTemplate`, `ChatRender`, `ChatLaws`, `ChatSession`;
`engine/c/chat_template.h`, `engine/c/chat_templates.py`). Where the renderer into a bounded buffer succeeds, it
writes what the joining renderer returns, under conditions on markers, white space and placeholders that are proved to
be exact one by one. The third renderer, for one turn of a conversation, leaves out the effort line; `AlwaysAlikeIff`
says exactly when a conversation rendered a turn at a time is the prompt for the whole of it.

## Model

| member | source | states |
|---|---|---|
| KvDecode.Model.Generate | engine/c/olmoe.c:350-370 | For every nonempty prompt and count, the output buffer holds the tokens of greedy decoding that recomputes each prefix from scratch; the expert store stays consistent and the rest of the buffer is untouched. |
| KvDecode.Model.Step | engine/c/olmoe.c:325-347 | With the caches holding a prefix, running more tokens leaves them holding the longer prefix, and the logits are those of computing that whole prefix anew, however it was cut into steps. |
| KvDecode.Model.StepAll | engine/c/glm.c:1606-1618 | The same with the logits of every new position, each those of the prefix that ends there. |
| KvDecode.Model.PrefixHeld | engine/c/glm.c:1812 | Buffers that hold a prefix hold every shorter one: stale entries behind it do not matter. |
| KvDecode.Attention | engine/c/olmoe.c:235-286 | The new rows' keys and values extend what the buffers hold, and every output row is attention over its own whole prefix and nothing later. |
| KvDecode.WriteKv | engine/c/olmoe.c:249-253 | Exactly the (head, position) blocks of the new rows change: blocks of other heads and positions keep their contents. |
| KvDecode.Contexts | engine/c/olmoe.c:262-281 | Reading a full cache, each query sees the keys and values up to its own position only. |
| KvDecode.SeesPrefix | engine/c/olmoe.c:267-268 | The first n cached keys and values of a head are those of the first n rows, though later ones are already in the buffer. |
| KvDecode.Matmul | engine/c/olmoe.c:58-69 | Each output row is a function of its own input row, whatever the batch size. |
| KvDecode.Moe | engine/c/olmoe.c:289-322 | Output rows do not depend on what the expert cache holds; the layer's recency list takes one access per routed expert, in routing order. |
| KvDecode.Model.AttentionHalf | engine/c/olmoe.c:332-334 | Norm, attention and residual take the new rows from a layer's input to its midpoint, as computed over the whole prefix. |
| KvDecode.Model.MoeHalf | engine/c/olmoe.c:335-337 | Norm, experts and residual take them from the midpoint to the next layer's input. |
| KvDecode.Model.AllocateKv | engine/c/olmoe.c:352-357 | The fresh buffers hold the empty prefix and have room for all positions. |
| KvDecode.LayerInputCausal | engine/c/olmoe.c:267 | A layer's normed inputs for a prefix are a prefix of those for the longer stream. |
| KvSpec.Net.Causal | engine/c/olmoe.c:267 | No activation at any layer depends on a later token. |
| KvSpec.Net.GreedyTokens | engine/c/olmoe.c:361-369 | Greedy output begins with the prompt, and each later token is the scan's choice on the logits of everything before it. |
| KvSpec.Net.GreedyUnique | engine/c/olmoe.c:361-369 | No other output does. |
| KvSpec.Net.ArgMaxIsFirstGreatest | engine/c/olmoe.c:362-363 | For ordered logits the scan returns the first of the greatest. |
| KvLaws.ContextAt | engine/c/olmoe.c:262-281 | What that reference computes, number by number. A row's context in a head is, at each number, the inner product of the softmax of the head's scaled scores with the values' numbers there. |
| KvLaws.MixAt | engine/c/olmoe.c:274-279 | A weighted sum of rows has in each place the inner product of the weights with the rows' numbers in that place. |
| KvLaws.RopeHeadsAt | engine/c/olmoe.c:246 | Every head of a rotated row is the rotation, for that position, of that head's own block, and heads not yet reached are as they were. |
| KvLaws.QueryAt | engine/c/olmoe.c:238-246 | A head's query is its block of the projected and normed row, rotated for the row's position. |
| KvLaws.MoeAt | engine/c/olmoe.c:310-319 | What the experts add has in each place the inner product of the routing weights with what the picked experts make of the row there. |
| KvLaws.EidsAt | engine/c/olmoe.c:310-311 | Experts are asked for in the order of the picks. |
| KvLaws.LayerAt | engine/c/olmoe.c:332-337 | A layer's output is, in each place, the midpoint plus what the experts make of the normed midpoint. |
| KvLaws.EmbeddedAt | engine/c/olmoe.c:328 | The first layer reads the rows of the embedding matrix that the tokens stand for. |
| KvLaws.MatVecAt | engine/c/olmoe.c:58-69 | Each number of a product is the inner product with its own row of the matrix. |
| KvLaws.DotAdds | engine/c/olmoe.c:269 | An inner product adds one product at a time, from the left. |
| KvLaws.LogitAt | engine/c/olmoe.c:341-345 | Each logit is the inner product of the last position's normed row with that token's row of the output matrix. |
| SpecDecode.Speculate | engine/c/glm.c:1768-1818 | At temperature 0 and for any drafts, the tokens said are those of greedy decoding, cut at the first stop token and at the count asked for; the history holds them, the cache holds all of them but perhaps the last, and there are no more forward passes than tokens. |
| SpecDecode.Accept | engine/c/glm.c:1796-1808 | The draft is kept exactly as far as it is what the scan would have chosen and no stop token. |
| SpecDecode.Follows | engine/c/glm.c:1799-1808 | A draft all of whose tokens the scan would have chosen is what greedy decoding says next. |
| SpecDecode.ClippedIs | engine/c/glm.c:1791-1794 | As much of a draft is run as is proposed and asked for, less only where the cache would have no position to spare, and one is left free. |
| SpecDecode.ReplyIs | engine/c/glm.c:1773-1776 | Greedy tokens without a stop token are the whole reply if no more are asked for or the next choice is a stop token. |
| SpecDecode.ReplyToTheEnd | engine/c/glm.c:1895-1899 | Without stop tokens the reply is all that greedy decoding says. |
| RecencyLru.ContentsAreLastUsed | local_data_plane/colibri.py:49-61 | After any trace, at any capacity, the cached keys are the last-used distinct keys of the trace in recency order. |
| RecencyLru.RecencyIsByLastUse | local_data_plane/colibri.py:49-61 | The move-to-end list orders exactly the keys of the trace by their last use. |
| RecencyLru.LastUseIs | local_data_plane/colibri.py:49-61 | The last use of a key is the last position of it in the trace, or none exactly if it does not occur. |
| RecencyLru.ByLastUseUnique | local_data_plane/colibri.py:49-61 | Only one list does: order by last use determines it. |
| RecencyLru.ContentsAreLoaded | local_data_plane/colibri.py:56-57 | Every cached value is the one its loader gives for its key. |
| RecencyLru.Inclusion | local_data_plane/colibri.py:49-61 | What a cache holds, every cache of larger capacity holds after the same trace. |
| RecencyLru.HitsGrow | local_data_plane/colibri.py:51 | Hits never decrease as capacity grows. |
| SlotCache.ExpertStore.ExpertGet | engine/c/olmoe.c:198-220 | The returned slot holds the requested expert's weights on hit and on miss alike; a hit is counted exactly if the expert was in the recency list; that layer's list takes one access and the others none; the clock counts all calls. |
| SlotCache.LayerCache.Get | engine/c/olmoe.c:198-220 | One layer's slot array with timestamps takes exactly the step of the recency list of the same capacity. |
| SlotCache.LayerCache.Fill | engine/c/olmoe.c:206-219 | A miss takes the next free slot, or the slot at the head of the recency list, and no other slot changes. |
| SlotCache.LayerCache.Oldest | engine/c/olmoe.c:211 | The scan for the smallest stamp finds the head of the recency list. |
| SlotCache.LayerCache.Touch | engine/c/olmoe.c:200-202 | A hit moves its expert to the end of the recency list and changes only its own stamp. |
| SlotCache.RestampFits | engine/c/olmoe.c:201 | Restamping keeps experts and stamps distinct, stamps bounded by the clock, and the stamp order total. |
| SlotCache.ExpertStore.constructor | engine/c/olmoe.c:186-187 | A new store has an empty list and its own slots for every layer. |
| ExpertCache.ExpertCache.GetOrLoad | local_data_plane/colibri.py:49-61 | A cached expert is a hit and is not read; a failed read is a miss that leaves the cache as it was; otherwise the cache takes one access, evicting exactly if it was full. |
| ExpertCache.Stream | local_data_plane/colibri.py:83-103 | The run stops at the first expert that is cancelled, unknown or unreadable and says which of them it was, with cache, hit and miss counts and bytes read those of the experts before it, and hands over output only if all went through. |
| ExpertCache.PassesIff | local_data_plane/colibri.py:83-103 | An expert goes through exactly if nothing ends the run there. |
| Utf8.GetPut | local_data_plane/binary.py:34 | Strict UTF-8 decoding undoes encoding for every text without surrogates. |
| Utf8.PutGet | local_data_plane/binary.py:99 | Bytes that decode are the encoding of what they decode to: overlong forms, surrogates and stray bytes are refused. |
| TextOrder.ByteOrder | local_data_plane/binary.py:72 | One text comes before another exactly if its bytes come before the other's. |
| TextOrder.KnownEncodings | local_data_plane/binary.py:34 | The bytes of the first and last code points of each length, and of some between. |
| BigEndian.ReadWrite | local_data_plane/binary.py:92 | Reading a big-endian field undoes writing it. |
| BigEndian.WriteRead | local_data_plane/binary.py:92 | Writing undoes reading. |
| BigEndian.ReadWriteI64 | local_data_plane/binary.py:52 | The same for signed 64-bit integers. |
| CodecLaws.ReadFront | local_data_plane/binary.py:37 | The first byte of a field weighs most. |
| Values.SortAscending | local_data_plane/binary.py:72 | Sorting a map's entries gives strictly ascending keys, in the order that `LessIs` describes. |
| Values.LessIs | local_data_plane/binary.py:72 | One text comes before another exactly if it is a proper prefix of it or has the lesser code point where they first differ. |
| Values.SortedAt | local_data_plane/binary.py:72 | By position in the sorted entries: each key is a proper prefix of every later one or has the lesser code point where they first differ. |
| Values.SortContents | local_data_plane/binary.py:72 | Sorting neither loses, adds nor changes entries. |
| Values.SameCanon | local_data_plane/binary.py:67-74 | A value and its sorted form are equal as Python compares dictionaries and lists. |
| Values.SameIffCanon | local_data_plane/binary.py:67-74 | Two values are equal as Python compares them exactly if their sorted forms are the same. |
| Values.CanonOfOrdered | local_data_plane/binary.py:72 | Sorting leaves a value whose maps are already ascending as it is. |
| BinaryCodec.EncodeIsRaw | local_data_plane/binary.py:40-75 | The writer succeeds exactly on values within the depth, size, integer and per-container limits, and then writes the wire form of the sorted value. |
| CodecLaws.SameBytesIffSame | local_data_plane/binary.py:40-75 | Two values are written alike exactly if they are equal, whatever order their maps are in. |
| CodecLaws.KnownWire | local_data_plane/binary.py:45-60 | The bytes of a value of each kind. |
| CodecLaws.KnownInts | local_data_plane/binary.py:51-52 | The bytes of 1 and of -2. |
| CodecLaws.KnownText | local_data_plane/binary.py:33-37 | The bytes of texts of one character of one and of two bytes. |
| CodecLaws.KnownList | local_data_plane/binary.py:64-66 | The bytes of a list of two values. |
| CodecLaws.KnownMap | local_data_plane/binary.py:70-74 | The bytes of a map of one entry: the key stands before its value. |
| CodecLaws.DeepestNesting | local_data_plane/binary.py:43-44 | The writer takes thirty-two lists in one another and no more. |
| CodecLaws.LargestLeaves | local_data_plane/binary.py:33-60 | Texts and byte strings of up to eight mebibytes, and exactly the 64-bit integers. |
| CodecLaws.LongestList | local_data_plane/binary.py:62-63 | The writer takes lists of up to a hundred thousand; the count of a list of that many nulls is one more. |
| CodecLaws.KnownFailures | local_data_plane/binary.py:34-59 | Why a text, an integer, a byte string or a depth is refused. |
| BinaryCodec.ParseRaw | local_data_plane/binary.py:103-145 | Reading the wire form, with anything after it, gives the value back and stops just behind it; it fails only, and then always, for want of item budget. |
| BinaryCodec.ReadIsRaw | local_data_plane/binary.py:103-145 | Whatever is read from arbitrary bytes is, byte for byte, the wire form of a value within the limits, without duplicate keys. |
| BinaryCodec.RoundTrip | local_data_plane/binary.py:148-153 | Decoding an encoded value gives a value equal to it exactly if it has at most the allowed number of values in all; otherwise it is refused. |
| BinaryCodec.WrittenButNotReadable | local_data_plane/binary.py:107-108 | A value that the writer accepts and the reader refuses. |
| BinaryCodec.CanonicalIffOrdered | local_data_plane/binary.py:67-74 | Re-encoding what was decoded gives the same bytes exactly if every map in them lists its keys in ascending order. |
| BinaryCodec.PrefixFree | local_data_plane/binary.py:40-75 | No encoding is a proper prefix of another. |
| BinaryCodec.Reader.ReadValue | local_data_plane/binary.py:103-145 | On arbitrary bytes the cursor-based reader ends with the value or the error the parser function gives, with the same item count, and never past the end. |
| BinaryCodec.Reader.ReadDict | local_data_plane/binary.py:132-144 | The map loop refuses non-text and duplicate keys and keeps the order of arrival. |
| BinaryCodec.Reader.ReadList | local_data_plane/binary.py:127-131 | The list loop reads exactly the announced number of values. |
| BinaryCodec.Reader.ReadString | local_data_plane/binary.py:94-101 | A text is refused if too long, truncated or not UTF-8. |
| BinaryCodec.Reader.Take | local_data_plane/binary.py:84-89 | Takes exactly the requested bytes, or fails without moving. |
| BinaryCodec.Decode | local_data_plane/binary.py:148-153 | Bytes left over after a value are an error. |
| Frames.NextOfEncoded | local_data_plane/binary.py:156-196 | A frame written on a stream is read back, and reading stops just behind it, exactly if its payload has no more values in all than the reader allows; otherwise it is refused. |
| Frames.ReadAllWritten | local_data_plane/binary.py:180-200 | Frames written one after another are read back as exactly that list, and then the end; if one has too many values, as those before it, and then an error. |
| Frames.ReadAllCut | local_data_plane/binary.py:184-193 | A stream cut inside a frame gives the frames before the cut and then an error. |
| Frames.DecodeIsNextAlone | local_data_plane/binary.py:164-177 | Decoding a buffer succeeds exactly if reading it as a stream gives that frame and nothing is left. |
| Frames.UnpackHeader | local_data_plane/binary.py:167-169 | Unpacking a packed header gives its fields. |
| Frames.DecodesIff | local_data_plane/binary.py:164-177 | Bytes are accepted as a frame exactly if they begin with the magic, version 2 and no flags, announce a size of at most eight mebibytes that is that of the rest, carry the checksum of the rest, and the rest decodes; the result is read off named bytes. |
| Frames.EncodedAt | local_data_plane/binary.py:156-161 | Where a written frame has its kind, its id, its size, its checksum and its body. |
| Frames.EncodesIff | local_data_plane/binary.py:156-161 | What cannot be written and why: a payload that cannot, a body of more than eight mebibytes, then a kind that is no byte or an id that is no unsigned 64-bit integer. |
| Frames.ReadFrame | local_data_plane/binary.py:180-196 | Reading from a stream returns none at the end, an error, or one frame with the stream just behind it, for any checksum function. |
| Probing.MaskIsMod | engine/c/st.h:227 | Masking with a power of two less one is the remainder. |
| Probing.Capacity | engine/c/st.h:223 | Doubling from one reaches a power of two at least twice the count, and less than four times. |
| Probing.PassedAll | engine/c/st.h:236-240 | With no gaps in the chains, a probe that meets a free slot has passed every slot of its key. |
| Probing.ChainedAfter | engine/c/st.h:228-229 | Filling the free slot that ends a probe leaves no gaps. |
| TensorIndex.Shards.constructor | engine/c/st.h:223-230 | The built table indexes every tensor, duplicates included, earlier ones nearer to their start. |
| TensorIndex.Shards.Find | engine/c/st.h:233-245 | For any hash function the probing lookup ends and returns what the linear scan returns: the lowest tensor of that name, or none. |
| TensorIndex.FoundIsFirst | engine/c/st.h:236-238 | The first match on a probe is the lowest tensor of that name. |
| TensorIndex.FreeMeansAbsent | engine/c/st.h:241 | A free slot on a probe means that no tensor has the name. |
| HashMap.HMap.Put | engine/c/tok.h:29-33 | The table represents the map updated at the key, an existing key being overwritten in place. |
| HashMap.HMap.Get | engine/c/tok.h:34-38 | The map's value, or -1 exactly if the key is absent. |
| HashMap.HMap.Probe | engine/c/tok.h:35-36 | Every probe ends, at the key's own slot or at the first free one. |
| HashMap.InsertRepresents | engine/c/tok.h:32 | Taking the free slot adds the key and nothing else to the represented map. |
| HashMap.Load | engine/c/tok.h:111-117 | A table filled from a list holds the last value of every key. |
| HashMap.LastValuesIs | engine/c/tok.h:29-33 | The last value of a key is that of the last entry with the key, and exactly the keys listed have one. |
| ByteLevel.BuildByteMap | engine/c/tok.h:67-81 | The three tables are the byte alphabet, its spelling in UTF-8, and its inverse. |
| ByteLevel.CpInjective | engine/c/tok.h:74-76 | No two bytes share a character. |
| ByteLevel.ByteOfCp | engine/c/tok.h:79 | The inverse table gives the byte back. |
| ByteLevel.AlphabetIs | engine/c/tok.h:69-77 | The alphabet as a table: printable bytes stand for themselves, the others for the characters from 256 on, in order. |
| ByteLevel.U8NextOfGlyph | engine/c/tok.h:51-64 | The lenient decoder reads a spelled byte as its character, whatever follows. |
| ByteLevel.U8NextOfChar | engine/c/tok.h:51-64 | It reads back every code point that UTF-8 can write, surrogates included, whatever follows. |
| ByteLevel.U8NextOfBad | engine/c/tok.h:53-57 | A stray or impossible byte, or a character cut short, is one byte that stands for itself. |
| ByteLevel.UnspellSpelled | engine/c/tok.h:270-272 | A string beginning with a spelling decodes to what is spelled, then the rest. |
| ByteLevel.UnspellChar | engine/c/tok.h:270-272 | Each character gives the byte it stands for, or nothing if it is not in the alphabet. |
| ByteLevel.SplitSpelled | engine/c/tok.h:153-156 | A spelling splits into exactly the glyphs of its bytes. |
| Bpe.BestIs | engine/c/tok.h:159-165 | The scan finds a mergeable pair if there is one, of lowest rank, and the leftmost of those. |
| Bpe.BestPair | engine/c/tok.h:159-165 | So does the loop that looks the pairs up in the hash table. |
| Bpe.MergesLowestFirst | engine/c/tok.h:158-170 | Wherever a pair is the leftmost of those of lowest rank, merging goes on from the string with that pair merged. |
| Bpe.SpansMerge | engine/c/tok.h:167-169 | Growing one span over the next and moving the rest down keeps the spans a gapless partition of the string, now of the merged symbols. |
| Bpe.MergeSpans | engine/c/tok.h:167-169 | The in-place shift removes exactly one entry of each array. |
| Bpe.MergeAll | engine/c/tok.h:158-170 | The in-place loop ends with the spans of the symbols that repeated rewriting gives. |
| Bpe.MergeIsFinal | engine/c/tok.h:166 | At the end no adjacent pair can be merged. |
| Bpe.MergeFlatten | engine/c/tok.h:158-170 | Merging never changes the string spelled. |
| Bpe.MergeKnown | engine/c/tok.h:171-174 | If the vocabulary has the starting symbols and the result of every merge, it has every symbol left at the end. |
| Bpe.PairKeyInjective | engine/c/tok.h:162 | The separator makes the key of a pair of NUL-free strings unambiguous. |
| Bpe.RankIsPosition | engine/c/tok.h:118-127 | In a table loaded from NUL-free merges the rank of a NUL-free pair is the last position at which it is listed, and -1 exactly if it is not. |
| Bpe.ListedIsClosed | engine/c/tok.h:121-127 | A table loaded from listed merges, all of whose results are in the vocabulary, ranks no other pair. |
| Bpe.BpePiece | engine/c/tok.h:144-176 | Appends the ids of one piece as far as they fit: its own if the whole piece is a token, else those of its merged symbols. |
| Bpe.WholePiece | engine/c/tok.h:151-174 | A piece that is a token has its own id; any other the ids of its merged symbols, one by one. |
| Pretok.PieceEndIsMatch | engine/c/tok.h:187-230 | Given that line breaks are spaces, the scanner ends a piece where a backtracking matcher for the pattern first succeeds, its alternatives tried in order; its fallback is never reached. |
| Pretok.ScanPiece | engine/c/tok.h:189-229 | The loops end the piece where the scanning function does, for any classes. |
| Pretok.PieceEnd | engine/c/tok.h:187-230 | A piece always ends past its start and within the text, whatever the classes. |
| Pretok.ContractionsMatch | engine/c/tok.h:190-196 | The first alternative, ASCII letters in either case. |
| Pretok.ContractionIs | engine/c/tok.h:190-196 | Which they are: an apostrophe and one of s, t, m, d, or re, ve or ll, in either case. |
| Pretok.WordsMatch | engine/c/tok.h:197-204 | The second: the optional leading character is given back if no letter follows it. |
| Pretok.NumbersMatch | engine/c/tok.h:205-206 | The third: one to three numbers, greedily. |
| Pretok.OthersMatch | engine/c/tok.h:207-216 | The fourth: an optional space, other characters, line breaks. |
| Pretok.LinesMatch | engine/c/tok.h:217-221 | The fifth: backing off through the spaces to the last line break. |
| Pretok.TrailingMatch | engine/c/tok.h:222-226 | The sixth: all spaces at the end of the text, else all but the last, if that leaves any. |
| Regex.SetsAre | engine/c/tok.h:185-211 | The sets of characters: line breaks, what may lead a word, what is neither space nor letter nor number, and letters in either case. |
| Regex.StarIsDown | engine/c/tok.h:202 | A greedy run is tried from its full length down. |
| Tokenizer.PiecesPartition | engine/c/tok.h:180-234 | The pieces of a chunk, put together, are the chunk, whatever the classes. |
| Tokenizer.Tok.PretokChunk | engine/c/tok.h:180-234 | Appends the ids of a chunk's pieces in order, as far as they fit. |
| Tokenizer.NextTokenIsFirstLongest | engine/c/tok.h:240-247 | No added token stands before the place found, and with the list sorted none at that place is longer. |
| Tokenizer.Tok.FindToken | engine/c/tok.h:241-247 | The nested loops find the next added token. |
| Tokenizer.TokenGivesId | engine/c/tok.h:239-253 | A text whose next added token is found at a place gives the ids of what stands before, the token's own id, and then those of the rest behind it. |
| Tokenizer.NoTokenOneChunk | engine/c/tok.h:248-250 | A text in which no added token stands is one chunk. |
| Tokenizer.ChunkIdsAre | engine/c/tok.h:180-234 | The ids of a chunk's pieces are appended piece by piece. |
| Tokenizer.Tok.Encode | engine/c/tok.h:237-255 | The buffer holds the ids of the text cut at added tokens, as far as they fit. |
| Tokenizer.Tok.Decode | engine/c/tok.h:264-276 | The buffer holds the bytes of the ids, unknown ids skipped, as far as they fit, and a NUL if that fits. |
| Tokenizer.Tok.DecodeOne | engine/c/tok.h:267-272 | Added tokens are written literally; of others the bytes their strings spell. |
| Tokenizer.IdBytesIs | engine/c/tok.h:267-272 | An id out of range or without a string gives nothing, an added token its string, and any other what its string spells. |
| Tokenizer.PieceDecodes | engine/c/tok.h:144-176 | The ids of a piece decode to the piece. |
| Tokenizer.MergeSpelled | engine/c/tok.h:158-170 | Merging symbols that spell byte strings gives symbols that spell byte strings, of the same bytes. |
| Tokenizer.IdsFit | engine/c/tok.h:237-255 | A text has at most one id per byte. |
| Tokenizer.RoundTrip | engine/c/tok.h:237-276 | For every byte string and any classes, with buffers no smaller than the text, decoding what was encoded gives back the text, if all bytes and all merge results are in the vocabulary and the id tables agree. |
| Tokenizer.LoadIds | engine/c/tok.h:102-137 | The tables by id hold the added token of an id, else the vocabulary string loaded last. |
| Tokenizer.LastLoaded | engine/c/tok.h:113-136 | Of entries with one id the last wins, and an added token over the vocabulary. |
| Tokenizer.LoadedIdsAgree | engine/c/tok.h:102-137 | The tables as loaded agree if no id is used twice. |
| Tokenizer.Tok.constructor | engine/c/tok.h:91-141 | A loaded tokenizer has consistent tables and represents the lists it was loaded from: the last id of every vocabulary string, the last position of every merge, and the strings by id. |
| StopFilter.StopFilter.Feed | engine/c/openai_server.py:237-253 | Keeps the invariant that what was emitted and what is pending make up the filtered text of all chunks so far, with just enough pending to see a stop that straddles. |
| StopFilter.StopFilter.Finish | engine/c/openai_server.py:255-258 | At the end exactly the filtered text has been emitted. |
| StopFilter.KeepIs | engine/c/openai_server.py:235 | One character less is held back than the longest stop has, and none without stops. |
| StopFilter.Window | engine/c/openai_server.py:235-250 | The pending tail is enough: searching it finds the first stop of the whole text. |
| StopFilter.CutAtShortestPrefix | engine/c/openai_server.py:240-249 | The text is cut at the earliest-starting stop of the shortest chunk-aligned prefix that contains any. |
| StopFilter.CutIffStop | engine/c/openai_server.py:243 | It is cut exactly if some stop occurs in what was fed. |
| StopFilter.FilteredOpen | engine/c/openai_server.py:250-257 | With no stop, all of the input is let through. |
| StopFilter.NeverEmitsStop | engine/c/openai_server.py:228 | No nonempty stop is ever in the emitted text. |
| StopFilter.ChunkingIrrelevant | engine/c/openai_server.py:237-253 | The result is the same for every way of cutting every text into chunks exactly if, inside every stop, the first stop to be completed starts at its beginning. |
| StopFilter.SplitShows | engine/c/openai_server.py:240-249 | A stop that fails that test is itself a text on which two chunkings differ. |
| StopFilter.FirstStopIs | engine/c/openai_server.py:241-244 | The minimum over all stops of their first positions is the least position of any stop. |
| EngineTurn.ReadTurn | engine/c/openai_server.py:261-275 | What is delivered is exactly what precedes the first sentinel and the stream is left just after it; without a sentinel the stream is consumed and the turn fails, having delivered all but at most a sentinel's length of it. |
| EngineTurn.LastByte | engine/c/openai_server.py:267-275 | The window of pending bytes is enough to see the sentinel end. |
| EngineTurn.FramesEveryPayload | engine/c/openai_server.py:268 | A sentinel frames every payload that does not contain it exactly if it has no proper border. |
| EngineTurn.SentinelsUnbordered | engine/c/openai_server.py:26-27 | The two sentinels in use have none. |
| Scheduler.RunSafe | engine/c/openai_server.py:78-136 | After any interleaving: at most one holder, admitted less completed is one exactly if active, the queue is at most max(1, max_queue), the counters count the fates, and queue and admissions are in order of enqueueing. |
| Scheduler.NextSafe | engine/c/openai_server.py:78-136 | Every step keeps all of that. |
| Scheduler.FatesAreFinal | engine/c/openai_server.py:92-123 | A ticket's final fate never changes. |
| Scheduler.EveryTicketAccounted | engine/c/openai_server.py:72-76 | Every ticket that arrived has one fate, and queue and counters account for all. |
| Scheduler.NoAdmissionAfterClose | engine/c/openai_server.py:133-136 | Once closed, always closed, and nobody is admitted any more. |
| Scheduler.NoLostWakeup | engine/c/openai_server.py:95-123 | A step that lets some other waiting ticket go ends in a notification. |
| Scheduler.Progress | engine/c/openai_server.py:92-123 | A ticket at queue position p holds the engine after p + 1 rounds in which the holder leaves and the head gets its turn, right after those that were ahead of it, and even if it has expired or was cancelled. |
| Scheduler.NoOvertaking | engine/c/openai_server.py:78-123 | In any interleaving, as long as a ticket waits, no more tickets are admitted than stood ahead of it, and its place in the queue improves by at least as many. |
| Scheduler.GenerationScheduler.Admit | engine/c/openai_server.py:79-115 | The method takes exactly the arrival step of the state machine and tells its caller the ticket's fate. |
| SchedulerLaws.ArriveFree | engine/c/openai_server.py:86-115 | With the engine free and nobody waiting a request is admitted at once, whatever the limit, and even if it is cancelled or too late. |
| SchedulerLaws.ArriveBusy | engine/c/openai_server.py:86-112 | Otherwise it is rejected exactly if as many wait as may, and then nothing else changes but the count; one that is neither cancelled nor late ends as the last of the queue. |
| SchedulerLaws.ArriveClosed | engine/c/openai_server.py:83-85 | At a closed scheduler nothing changes and nothing is counted. |
| SchedulerLaws.AfterAdds | engine/c/openai_server.py:78-136 | A run takes its steps one by one, skipping exactly those that cannot be taken. |
| SchedulerLaws.CanGoIff | engine/c/openai_server.py:92-112 | What no lost wakeup is about: a waiting ticket can go exactly if a turn, without cancellation or timeout, changes anything. |
| SchedulerLaws.NotifiesIff | engine/c/openai_server.py:92-136 | The others are notified exactly when a ticket leaves the queue without being admitted, when the holder leaves, and on closing. |
| Scheduler.GenerationScheduler.WaitTurn | engine/c/openai_server.py:92-115 | One turn of the waiting loop is one step. |
| SchedulerLaws.WakeIs | engine/c/openai_server.py:92-115 | A waiting request that gets its turn leaves if the scheduler is closed, else is admitted if it is the head and the engine is free, else leaves if cancelled, else if too late, else waits on; each way the whole state is given. |
| Scheduler.GenerationScheduler.Leave | engine/c/openai_server.py:119-123 | The holder leaving is one step, with a notification. |
| SchedulerLaws.ReleaseIs | engine/c/openai_server.py:119-123 | Leaving frees the engine, counts one more completed, and changes the fate of the holder alone. |
| Scheduler.GenerationScheduler.Shutdown | engine/c/openai_server.py:133-136 | Closing is one step, with a notification. |
| Ranking.OrderToIs | engine/c/moe_route.h:51-64 | The reference order lists exactly the candidates, higher score first, lower index first among equals. |
| Ranking.SortedUnique | engine/c/moe_route.h:51-64 | That order is the only such list. |
| Ranking.BestIsNext | engine/c/moe_route.h:52-61 | Taking the best of what is left gives the next of the order. |
| Ranking.TopIs | engine/c/moe_route.h:51-64 | The first k are distinct, and every other candidate comes after all of them. |
| MoeRoute.Sum2IsGreatest | engine/c/moe_route.h:27-33 | The score of a group of two or more is the greatest sum of two of its members. |
| MoeRoute.KeptAreBest | engine/c/moe_route.h:36-44 | The groups kept are distinct and no group left out beats one of them. |
| MoeRoute.KeptCount | engine/c/moe_route.h:36-44 | As many groups are kept as are wanted, or else all whose score is above the floor. |
| MoeRoute.RemainingIs | engine/c/moe_route.h:45-48 | An expert still competes, with its own score, exactly if its group was kept. |
| MoeRoute.Enough | engine/c/moe_route.h:51-64 | With scores and group sums above the search's starting value and enough experts in the groups kept, there is a candidate for every rank. |
| MoeRoute.FilledIff | engine/c/moe_route.h:24-65 | For scores of ordinary size, and limits as the configuration is checked for, no rank is left at -1 exactly if there is one group or the groups have at least two experts. |
| MoeRoute.GroupsOfOne | engine/c/moe_route.h:27-40 | Two groups of one expert: adding the starting value loses the score, no group is kept, and -1 is selected. |
| Ranking.PicksAre | engine/c/moe_route.h:51-62 | The searches find the candidates in their order, as many as there are, and then -1. |
| Ranking.NoHoleIff | engine/c/moe_route.h:51-62 | No search ends in -1 exactly if there are as many candidates as searches. |
| MoeRoute.SelectedAreBest | engine/c/moe_route.h:51-64 | If there is a candidate for every rank, the selected experts are distinct, in kept groups, in order, and no other expert of a kept group comes before one of them. |
| MoeRoute.SelectedOfOneGroup | engine/c/moe_route.h:51-64 | With a single group all experts compete: those selected are distinct, come in descending order of biased score and ascending order of index among equals, and no expert left out comes before any of them. |
| MoeRoute.FillableIff | engine/c/moe_route.h:45-60 | There is a candidate for every rank exactly if that many experts have a score above the floor and, with more than one group, are in one that was kept. |
| MoeRoute.Select | engine/c/moe_route.h:15-65 | The in-place routine leaves the first of the sorted remaining experts in the index buffer, as many as there are and are wanted, and their unbiased probabilities in the weight buffer; if there are too few it writes -1 for the next rank, and stops there. |
| MoeRoute.SelectGroups | engine/c/moe_route.h:35-44 | The flags mark exactly the groups kept. |
| MoeRoute.ScoreGroups | engine/c/moe_route.h:26-34 | Every group's two best are found in one pass, and their sum is the starting value itself if a group has only one. |
| TierSwap.PickIs | engine/c/tier.h:8-25 | A swap brings in a hottest expert from outside for a coldest pinned one. |
| TierSwap.MarginIffNoWrap | engine/c/tier.h:21-22 | The margin of a quarter and 4 holds for a picked swap exactly if the 32-bit threshold does not wrap round. |
| TierSwap.MarginAlwaysIffSteady | engine/c/tier.h:8-29 | Every pick of every run from every proper pinning of that size keeps its margin exactly if the heats are steady: fewer experts wrap than are pinned, or just as many and no other is hotter than their wrapped thresholds. |
| TierSwap.DecayCools | engine/c/tier.h:27-29 | After one decay no threshold wraps, whatever the heats were. |
| TierSwap.RunKeeps | engine/c/tier.h:8-29 | Through any interleaving of decays and swaps that keep their margin: pins stay distinct, what came in is never evicted, what was evicted never returns. |
| TierSwap.AtMostNpinSwaps | engine/c/tier.h:8-29 | Of swaps that keep their margin there are never more than pins, in any interleaving with decays. |
| TierSwap.SwapsAfterDecay | engine/c/tier.h:8-29 | From any heats, no more swaps than pins follow the first decay. |
| TierSwap.PassesEnd | engine/c/glm.c:2013-2050 | However many passes there are, each ending in a decay and with nothing routed between them, a layer sees at most one swap more than it has pins, from any heats. |
| TierSwap.SwapGains | engine/c/tier.h:23 | A swap raises the total heat of the pins by exactly its reported gain. |
| TierSwap.TotalRises | engine/c/tier.h:22-23 | Without decay every swap that keeps its margin raises it by more than 4. |
| TierSwap.PingPong | engine/c/tier.h:22 | With a heat at the top of the range and no decay, repeated picks swap one pin back and forth without end. |
| TierChurn.EndsIff | engine/c/tier.h:8-29 | Every run from every proper pinning of that size makes at most one swap more than it has pins, exactly if the heats do not churn: more experts wrap than are pinned, or just as many, and a coldest of them and a hottest other one each give way to the other. |
| TierChurn.ChurnsForever | engine/c/tier.h:21-22 | Heats that churn have a pinning from which every try is a swap, without end. |
| TierChurn.AtMostPinsIff | engine/c/tier.h:8-29 | Every run makes at most as many swaps as it has pins, exactly if besides the wrapping experts cannot first displace a full set of colder ones and then give way. |
| TierChurn.NothingReturnsIff | engine/c/tier.h:8-29 | In no run does an expert that went out come back, or one that came in go out, exactly if besides no colder expert can be displaced by the one that gives way, nor a hottest other one by any that wraps. |
| TierChurn.Hierarchy | engine/c/tier.h:6-7 | Heats that keep every margin let nothing return; where nothing returns there are no more swaps than pins; and where there are no more, swapping ends. |
| TierChurn.OneTurn | engine/c/tier.h:22 | In heats that do not churn at most one swap of a run loses its margin: before it nothing was decayed, it finds exactly the wrapping experts pinned, and after it nothing moves. |
| Repin.RepinPick | engine/c/glm.c:1999-2012 | Of all layers with a swap the pass takes at most as many as it may, each once, and leaves out none that gains more than one it takes. |
| Repin.BestIs | engine/c/glm.c:1999-2012 | What is chosen are different layers' own swaps; those of all layers that have one if fewer than may be; else none gains less than one left out. |
| TierSwap.HotStore.PickSwap | engine/c/tier.h:8-25 | The loops find the first coldest pin and the first hottest other expert, and decide by the wrapped threshold. |
| TierSwap.HotStore.TrySwap | engine/c/glm.c:2000-2029 | The picked expert takes the picked slot, and nothing else changes. |
| TierSwap.HotStore.Decay | engine/c/tier.h:27-29 | Every heat is halved in place, the pins unchanged. |
| BitPack.Pack | local_data_plane/turboquant.py:94-108 | The bits of the output are the low bits of the values end to end, lowest first, then fewer than eight zeros. |
| BitPack.PackedOnce | local_data_plane/turboquant.py:94-108 | Only one byte string is that. |
| BitPack.PackedLength | local_data_plane/turboquant.py:106-108 | Its length is the number of bits divided by eight, rounded up. |
| BitPack.Unpack | local_data_plane/turboquant.py:111-127 | For widths of at most eight bits: fails exactly if the data has fewer bits than asked for; otherwise the values fit and their bits are the first of the data. |
| BitPack.RoundTrip | local_data_plane/turboquant.py:94-127 | Unpacking what was packed gives back the values, whatever bytes follow. |
| BitPack.NotTruncated | local_data_plane/turboquant.py:125-126 | And it does not fail. |
| BitPack.BitsJoined | local_data_plane/turboquant.py:100 | Or-ing a shifted value above an accumulator's bits appends its bits. |
| BitPack.OperatorsAt | local_data_plane/turboquant.py:100-104 | Or and and work bit by bit. |
| BitPack.BitsCut | local_data_plane/turboquant.py:103-104 | Masking and shifting cut a number's bits in two. |
| BitPack.StreamAt | local_data_plane/turboquant.py:99-105 | Bit j of value i stands j bits behind all the bits of the values before it. |
| BitPack.BitsOfNumber | local_data_plane/turboquant.py:100-104 | The low bits of the number that a list of bits stands for are that list. |
| BitPack.NumberOfBits | local_data_plane/turboquant.py:100-104 | A number that fits is the one its low bits stand for. |
| Hadamard.RowsOrthogonal | local_data_plane/turboquant.py:51-55 | For every size reached by doubling, different rows have product zero and a row with itself the size. |
| Hadamard.Build | local_data_plane/turboquant.py:51-54 | The doubling loop builds that matrix. |
| Hadamard.HadamardOrthonormal | local_data_plane/turboquant.py:55 | Divided by the square root of its size it is a rotation. |
| Hadamard.IsPowerOfTwoIs | local_data_plane/turboquant.py:47-48 | The bit test finds exactly the numbers that halve down to one, which are the sizes that doubling reaches. |
| Hadamard.UnrotateRotate | local_data_plane/turboquant.py:227 | Flipping signs and rotating is undone exactly by the transpose and the same signs, for every rotation. |
| Hadamard.RotationKeepsLength | local_data_plane/turboquant.py:225-228 | A rotation keeps the length of a vector. |
| TurboQuant.RestoredNormalized | local_data_plane/turboquant.py:224-251 | Without quantization error a vector is restored exactly, the zero vector included. |
| TurboQuant.LookupOfIndices | local_data_plane/turboquant.py:230 | Coordinates that are centroids are quantized without error. |
| TurboQuant.NormAdds | local_data_plane/turboquant.py:225 | Another coordinate adds its square to the square of the norm. |
| TurboQuant.Nearest | local_data_plane/turboquant.py:230 | The first of the centroids that are nearest. |
| TurboQuant.NormalizedAt | local_data_plane/turboquant.py:225-228 | Coordinate j of what is quantized: the signed vector's product with column j of the rotation, divided by the norm, or by one for a zero vector. |
| TurboQuant.RestoredAt | local_data_plane/turboquant.py:248-251 | Coordinate j of what is restored: the scaled centroids' product with row j of the rotation, times the sign. |
| TurboQuant.Numerics.RotationOrthonormal | local_data_plane/turboquant.py:83-91 | Given the exact root of a power of two, or an orthonormal random rotation, the rotation of a dimension and seed is orthonormal and has a sign for every coordinate. |
| TurboQuant.Numerics.BuildRotation | local_data_plane/turboquant.py:83-91 | The doubling loop, scaled, or the random rotation is what the dimension and the seed alone determine. |
| TurboQuant.PacketReadable | local_data_plane/turboquant.py:236-247 | What was compressed is never refused. |
| TurboQuant.ExactRoundTrip | local_data_plane/turboquant.py:213-251 | Whatever is restored from the packet of vectors whose normalized coordinates are all centroids is those vectors, if their norms and the rotation of their dimension and seed are exact. |
| TurboQuant.Compress | local_data_plane/turboquant.py:224-234 | Refuses exactly what is not a nonempty matrix of bounded size or has an unsupported bit width; otherwise the packet holds the packed indices of the nearest centroids of every row, under the rotation of its dimension and seed. |
| TurboQuant.CompressibleIff | local_data_plane/turboquant.py:213-221 | Two, three or four bits, and at most a million numbers in rows of one length. |
| TurboQuant.Decompress | local_data_plane/turboquant.py:236-251 | A packet is refused exactly if its parts do not match or its indices are truncated; otherwise the rows are restored from the indices that were packed, by the rotation of the packet's own dimension and seed. |
| ChatTemplate.StripAgreesIffUnbordered | engine/c/chat_template.h:252-260 | Scanning forward for the last match and splitting once from the right agree on every text exactly if the marker cannot overlap itself. |
| ChatTemplate.TrimAgreesIff | engine/c/chat_template.h:262-268 | Both trims agree on a text exactly if its first and its last character that the C library does not drop are no other white space. |
| ChatTemplate.NoBreakSpaceDiffers | engine/c/chat_template.h:262-268 | A text of one character that is white space to the one renderer only is kept by the other. |
| ChatTemplate.UnchangedIff | engine/c/chat_template.h:249-272 | Stripping and trimming leave a text alone exactly if the marker is not in it and its ends are bare. |
| ChatTemplate.EffortAgreesIff | engine/c/chat_template.h:314-319 | Replacing the first placeholder and replacing all agree exactly if there is one and no second after it. |
| ChatTemplate.TwoPlaceholdersDiffer | engine/c/chat_template.h:314-319 | With two placeholders the first renderer leaves the second as it stands. |
| ChatRender.PromptsAgree | engine/c/chat_templates.py:102-152 | Whatever prompt the buffer renderer accepts and produces, the joining renderer produces too, given markers without overlap, no exotic outer white space, and plain template texts where they are written. |
| ChatRender.Render | engine/c/chat_template.h:274-342 | Rendering succeeds exactly if the arguments are acceptable and the whole prompt with its NUL fits, and then the buffer holds the prompt. |
| ChatRender.AppendMessage | engine/c/chat_template.h:249-272 | A message is appended exactly if all three of its parts fit together. |
| ChatRender.Append | engine/c/chat_template.h:236-243 | A text is appended, with a NUL, exactly if both fit, and nothing before it changes. |
| ChatRender.AppendReasoning | engine/c/chat_template.h:310-323 | The effort line fails exactly without a placeholder, beyond 255 characters, or beyond the buffer. |
| ChatRender.PyRender | engine/c/chat_templates.py:102-152 | The list of parts, joined, is the prompt; empty, unsupported or incomplete input is refused. |
| ChatLaws.AcceptsIff | engine/c/chat_template.h:278-323 | What is accepted: known roles and contents throughout, thinking only where it is supported, and a format that has the placeholder and, with the name in its place, fewer than 256 characters. |
| ChatLaws.TurnAdds | engine/c/chat_template.h:325-335 | A message is written between the prefix and the suffix of the role it is in; a system or developer message is no turn of its own when such messages go in front. |
| ChatLaws.PromptGrows | engine/c/chat_template.h:325-335 | In both renderers the prompt of a longer conversation is that of the shorter one with a turn added. |
| ChatLaws.FrontGrows | engine/c/chat_template.h:291-301 | A further system message to be put in front is inserted, after the separator, behind those already there, and the rest of the prompt stays. |
| ChatLaws.PromptOfOne | engine/c/chat_templates.py:122-130 | What a conversation starts with: a system message in front or as a turn; before any other message the default system text, unless system messages go in front or there is none. |
| ChatLaws.EffortLineIs | engine/c/chat_template.h:310-323 | The effort line stands between what is in front and the first turn, with High or Max where the placeholder was. |
| ChatLaws.GenerationAdds | engine/c/chat_template.h:336-340 | A reply is asked for by one of two texts at the very end. |
| ChatLaws.PlainTemplateIff | engine/c/chat_template.h:302-323 | What agreement asks of the template's own texts: what is in front is the same in both renderers, and the filled effort format is and is written as it is. |
| ChatLaws.ForwardGoesOn | engine/c/chat_template.h:255-259 | The scan drops the text up to the end of the first marker and goes on with the rest. |
| ChatLaws.AfterTheLast | engine/c/chat_templates.py:143-144 | Splitting from the right drops the text up to the end of the last marker. |
| ChatLaws.BodiesAfter | engine/c/chat_template.h:249-268 | Of a content with one marker what follows it is kept, and trimmed after that. |
| ChatLaws.Trimmed | engine/c/chat_template.h:262-268 | Trimming cuts white space off both ends until none is left there. |
| ChatLaws.EffortReplaces | engine/c/chat_template.h:314-319 | The name is written where the first placeholder stands; the one renderer leaves what follows as it is, the other goes on in it. |
| ChatSession.RenderUserTurn | engine/c/chat_template.h:344-367 | Rendering one turn succeeds exactly if there is a content, thinking is supported if asked for, and the turn with its NUL fits, and then the buffer holds the turn. |
| ChatSession.AlwaysAlikeIff | engine/c/chat_template.h:274-367 | Rendering a conversation a turn at a time, with the replies in between, gives the prompt of the whole conversation, for all conversations, exactly if no effort line is written and every reply the model may give stands behind the text asking for it as it would in a message of its own. |
| ChatSession.FirstTurnIff | engine/c/chat_template.h:310-367 | The first turn is the prompt of the first question exactly if no effort line is written: the turn alone has none. |
| ChatSession.BeforeAdds | engine/c/chat_template.h:325-367 | In a conversation that agrees so far, another question and reply keep the two the same exactly if that reply does so. |
| ChatSession.EchoesIff | engine/c/chat_template.h:249-272 | Where the text asking for a reply is how a reply's message begins, and nothing is written behind one, that is so exactly if stripping and trimming leave the reply alone. |

## Left out

- Float arithmetic: norms, softmax, rotary angles, sigmoid, routing weights and dot products are arbitrary functions
  of rows or exact reals; rounding, overflow and NaN are not modelled.
- Routing inside `moe` (`engine/c/olmoe.c:297-308`) is an arbitrary function of the gate logits; the selection with an
  index of -1 when a logit is NaN, and reading a missing tensor, which ends the process, are not modelled.
- SlotCache.ExpertStore.ExpertGet: the 64-bit clock and counters are unbounded; the three weight matrices of an expert
  are one value, and reading from disk is a function of layer and expert.
- KvDecode.Model.Generate: the engine's scratch buffers are rows or fresh arrays; parallel loops run in order, which
  their disjoint writes allow; memory exhaustion is not modelled.
- SpecDecode.Speculate: the network is the one of `KvSpec`, without the compressed attention of `engine/c/glm.c`.
  Drafts come from outside, so neither the n-gram lookup nor the draft head and its state are modelled; sampling at
  other temperatures is left out.
- ExpertCache.Stream: the message texts and the derived metrics are left out, and a shard's hash test is part of
  whether it can be read.
- Hashes and checksums (FNV, CRC-32, SHA-256) are arbitrary functions, and so are the Unicode tables of the tokenizer.
- Pretok.PieceEndIsMatch: needs carriage return and line feed to be spaces, as they are in Unicode; letters in
  contractions are folded as ASCII letters, as the code does.
- Tokenizer.Tok.constructor: reading JSON and sorting the added tokens are left out; it takes the lists, and the added
  tokens both as read and as sorted. Ids are natural numbers and not limited to 32 bits.
- BinaryCodec.RoundTrip: doubles are opaque eight-byte payloads, so NaN equals itself; tuples decode as lists and are
  not a kind of value of their own; a type that the writer refuses has no counterpart.
- EngineTurn.ReadTurn: the status line after the sentinel and the incremental UTF-8 decoding of what is delivered are
  left out.
- Scheduler.GenerationScheduler.Admit: threads are steps taken with the lock held; the clock and the cancel callback
  are inputs of each step, waiting times are left out, and a wakeup may happen at any time.
- TensorIndex.Shards.constructor: reading shard headers is left out; the table starts from the list of names.
- MoeRoute.Select: masked scores are a value of their own below all numbers. Sums are exact except with the search's
  starting value, which absorbs scores of ordinary size as it does in floats. At the first rank without a candidate
  the code writes -1, reads the probability before the first, and goes on; the model stops there. The buffers for
  logits and probabilities may be the same in the code and are apart here.
- TierSwap.AtMostNpinSwaps: runs consist of picks and decays; what routing adds to the heats between passes starts a
  new run, with new heats and the same pins.
- TierSwap.HotStore.TrySwap: loading the new expert's weights is left out; a layer has at most 4096 pins looked at in
  the code.
- TurboQuant.Compress: random signs, random rotations, codebooks, square roots and norms are functions given from
  outside, exact where a result needs them to be; vectors are real, so none is infinite or NaN. Packets as
  dictionaries and the measurements are left out.
- ChatRender.Render: contents are NUL-free sequences of characters, the same for both renderers; error texts are left
  out, and so are loading and validating the templates and detecting the family.
- ChatSession.AlwaysAlikeIff: the texts are compared before they are turned into tokens; starting over when the
  context is full is left out.
- HTTP, process handling, the command line, and policy and receipt modules.
