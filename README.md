# Verified model of the NLP exercises: succinct trie, front coding, maximum matching, boolean and ranked retrieval

This Dafny project models the algorithmic core of a set of Java exercises in
natural language processing and proves what that code does:

- **LOUDS succinct trie** (`lab5/SuccinctTrie.java`). A vocabulary is
  inserted into a pointer trie. The trie is flattened breadth-first into a
  LOUDS bit string and a parallel array of label bytes. Each node writes one
  set bit per child edge, then a clear terminator bit. Words are resolved to
  node ids with `rank1`/`select0` child scans. Node ids are turned back into
  words with `rank0(select1(id - 1))` parent steps.
- **Front coding** (`lab5/FrontCoding.java`). `compress` writes `k`, then
  blocks of `k` terms. Each block holds its common prefix length, the first
  term, and the suffixes of the others, with one-byte lengths. `decompress`
  reads the stream back.
- **Dictionary trie and forward maximum matching** (`lab1/Main.java`,
  `lab1/TimeTest.java`). There are three `fmm` variants: over a word list,
  over a list per word length, and over a trie with end-of-word flags.
- **Boolean retrieval** (`lab3/Main.java`). It has three stages: `tokenize`,
  shunting-yard `toPostfix` with NOT > AND > OR, and `evaluatePostfix` over
  sets of file names.
- **Ranked retrieval, integer parts** (`lab6/Main.java`):
  - term-frequency counting in the `Document` constructor;
  - document frequencies and the vocabulary in `Corpus.loadDocuments`;
  - postings and top-r champion lists, kept with a bounded min-heap, in
    `InvertedIndex.build`;
  - the candidate union of `QueryProcessor.query`.

Each stateful Java object becomes a Dafny class.

- `SuccinctTrie.Trie` and `DictTrie.Trie` are node arenas. Each holds a
  sequence of child maps indexed by node id, plus a ghost string for every
  node.
- `RankedRetrieval.Corpus` and `RankedRetrieval.InvertedIndex` keep the
  fields the Java code updates.

Each loop of the source is a `method` proved against a specification
function. The properties the Java code promises are then lemmas about those
functions. The highlights:

- **Succinct trie.**
  - The LOUDS encoding of a vocabulary is determined by its set of prefixes.
  - The sizes are `bitLen = 2 * |labels| + 1` with `|labels|` set bits.
  - Every ASCII word resolves to its node, and `toTerm` turns that node back
    into the word.
- **Front coding.** `decompress(compress(T, k)) == T` when `|T|` is a
  multiple of `k`.
- **Maximum matching.**
  - Every `fmm` is greedy, and its tokens spell the text.
  - The three variants agree.
- **Boolean retrieval.** A query written in its canonical form finds exactly
  the files that satisfy it. The canonical form separates tokens by single
  spaces and uses the fewest parentheses that NOT > AND > OR and left
  association allow, except that the operand of a NOT that is itself a NOT
  is parenthesised.
- **Ranked retrieval.**
  - TF and DF are the exact counts.
  - Champion lists are the top r documents by TF, up to ties.

Module layout:

- `base.dfy`: Option/Result and sequence helpers.
- `java_text.dfy`: the `(byte)` and `(char)` casts.
- `bitvector.dfy`: `BitSet.length`, `rank1`/`rank0` and `select1`/`select0`.
- LOUDS encoding theory:
  - `louds_shape.dfy`: degree sequences;
  - `shortlex.dfy`: breadth-first order;
  - `louds_lists.dfy`: traversal state;
  - `louds_spec.dfy`: the encoding of a prefix-closed set.
- `trie_arena.dfy`: the arena invariants shared by both tries.
- `succinct_trie.dfy`: `insert` and `buildLouds`.
- Succinct lookup:
  - `louds_nav.dfy`: the child scan as a function;
  - `succinct_lookup.dfy`: `buildNodeIdPointers` and `toTerm`.
- `front_coding.dfy`: front coding.
- Maximum matching:
  - `dict_trie.dfy`: the lab1 `Trie`;
  - `max_match.dfy`: the segmentation specification;
  - `segmentation.dfy`: the `fmm` variants.
- Boolean retrieval:
  - `query_parser.dfy`: `tokenize`;
  - `shunting_yard.dfy`: `toPostfix`;
  - `postfix_evaluator.dfy`: `evaluatePostfix`;
  - `boolean_query.dfy`: the correctness of the pipeline.
- `ranked_retrieval.dfy`: the lab6 parts.

Behaviour the model keeps as the code has it:

- **Case of operator names.**
  - `toPostfix` recognises an operator name in any letter case, but looks up
    its precedence as written. A lower-case operator is pushed on an empty
    stack; over a non-empty stack its precedence is `null`, and unboxing it
    throws (`LowerCaseOperator`).
  - `evaluatePostfix` compares operator names ignoring case.
- **Query terms are not trimmed.** `QueryVector` keys are the untrimmed
  tokens (blank ones dropped). Document terms are trimmed, so a query token
  with surrounding blanks matches no champion list
  (`RankedRetrieval.QueryTerms`).
- **Non-ASCII words in the succinct trie.** A label is the character cast to
  a byte, and `buildNodeIdPointers` compares that byte with the character.
  A word with a non-ASCII character is therefore never found. The model's
  version of `buildNodeIdPointers` reports the first such word, where the
  Java code throws (`SuccinctLookup.BuildNodeIdPointers`,
  `SuccinctLookup.VocabularyWords`).

## Model

| member | source | states |
|---|---|---|
| Base.Reverse | lab5/SuccinctTrie.java:135 | StringBuilder.reverse / Collections.reverse: same length, element i is the element \|s\|-1-i of the input |
| Base.ReverseMultiset | lab6/Main.java:109 | Collections.reverse keeps every element with its multiplicity |
| JavaText.ToByte | lab5/SuccinctTrie.java:73 | the cast (byte) c keeps c modulo 256 |
| JavaText.ToChar | lab5/SuccinctTrie.java:131 | the cast (char) of a byte keeps its value modulo 65536 |
| JavaText.AsciiByte | lab5/SuccinctTrie.java:73 | on ASCII characters (byte) keeps the value and (char) undoes it |
| JavaText.ByteBelow128 | lab5/SuccinctTrie.java:111 | a byte can only equal a character below 128 |
| JavaText.ByteCharByte | lab5/SuccinctTrie.java:131 | (byte)(char) b == b |
| JavaText.Truncated | lab5/SuccinctTrie.java:131 | a word stored as label bytes and read back as chars keeps the length and every byte, and is unchanged when ASCII |
| BitVector.Length | lab5/SuccinctTrie.java:149 | BitSet.length(): highest set bit + 1; every bit at or after it is clear |
| BitVector.Rank1 | lab5/SuccinctTrie.java:139-141 | rank1(pos) is at most pos + 1 |
| BitVector.Rank0 | lab5/SuccinctTrie.java:143-145 | rank0(pos) = (pos + 1) - rank1(pos) is the number of clear bits in [0, pos] |
| BitVector.RankCounts | lab5/SuccinctTrie.java:139-145 | rank1 counts the set positions of [0, pos], rank0 the clear ones, rank0 + rank1 == pos + 1 |
| BitVector.OnesPlusZeros | lab5/SuccinctTrie.java:143-145 | every position is set or clear: ones + zeros == n |
| BitVector.SetPositionOfRank | lab5/SuccinctTrie.java:147-156 | two set positions with the same rank1 are equal, so select1's answer is unique |
| BitVector.ClearPositionOfRank | lab5/SuccinctTrie.java:158-167 | two clear positions with the same rank0 are equal |
| BitVector.Select1 | lab5/SuccinctTrie.java:147-156 | -1 exactly when k < 0 or fewer than k+1 bits are set; otherwise a set position p below length() with rank1(p) == k+1 |
| BitVector.Select0 | lab5/SuccinctTrie.java:158-167 | -1 exactly when k < 0 or fewer than k+1 clear bits lie below length(); otherwise a clear p below length() with rank0(p) == k+1 |
| LoudsShape.UnaryLength | lab5/SuccinctTrie.java:69-76 | the bit string of a degree sequence has one bit per edge plus one per node |
| LoudsShape.UnaryOnes | lab5/SuccinctTrie.java:69-70 | one set bit per edge |
| LoudsShape.InBlock | lab5/SuccinctTrie.java:69-76 | inside node i's block the bit at offset j is set exactly when j < degree, and the ones before it are the earlier edges plus j |
| LoudsShape.ChildBit | lab5/SuccinctTrie.java:69-74 | the j-th child edge of node i is a set bit whose rank1 is the child's id and whose rank0 is i |
| LoudsShape.EndBit | lab5/SuccinctTrie.java:76 | node i's terminator is a clear bit with rank0 == i + 1 |
| LoudsShape.LocateEdge | lab5/SuccinctTrie.java:130-133 | every edge number 1 .. edges is the j-th child edge of some node i |
| Shortlex.SiblingLess | lab5/SuccinctTrie.java:66-69 | children visited in increasing key order are listed in increasing order |
| Shortlex.ExtendLess | lab5/SuccinctTrie.java:64-72 | children of an earlier queued node come before those of a later one |
| Shortlex.SortedUnique | lab5/SuccinctTrie.java:66-67 | two sorted listings of the same strings are equal |
| TrieArena.NewChildIsNew | lab5/SuccinctTrie.java:93 | the node computeIfAbsent creates spells a string no node spells yet |
| TrieArena.ChildLink | lab5/SuccinctTrie.java:93 | the link for key c of node n leads to the node spelling n's string + c |
| TrieArena.ClosedPrefix | lab5/SuccinctTrie.java:90-95 | every prefix of a node string is a node string |
| TrieArena.MissingChild | lab1/Main.java:44-52 | no node spells a child string its parent has no link for |
| LoudsSpec.PrefixClosureMembers | lab5/SuccinctTrie.java:90-95 | the strings of the trie are exactly the root and the prefixes of the vocabulary words |
| LoudsSpec.PrefixClosureOfSameWords | lab5/SuccinctTrie.java:59 | they depend only on which words occur, not on order or repetition |
| LoudsSpec.PrefixClosureIsPrefixClosed | lab5/SuccinctTrie.java:90-95 | the root is a node and node strings are closed under prefixes |
| LoudsSpec.SortedKeys | lab5/SuccinctTrie.java:66-67 | the copied and sorted key list has every key once, in strictly increasing order |
| LoudsSpec.FixedPointCovers | lab5/SuccinctTrie.java:61-77 | the breadth-first listing reaches every node string |
| LoudsSpec.EncodesCounts | lab5/SuccinctTrie.java:62-81 | one node per string, labels = nodes - 1, bitLen == 2 * labels + 1, set bits == labels |
| LoudsSpec.ListingUnique | lab5/SuccinctTrie.java:66-67 | the breadth-first listing of a set of strings is unique |
| LoudsSpec.EncodesUnique | lab5/SuccinctTrie.java:53-84 | the listing, bits and labels are determined by the set of node strings alone |
| LoudsLists.FixedPointEquation | lab5/SuccinctTrie.java:64-77 | the queue lists the root, then the children of the listed nodes in order |
| LoudsLists.ChildCount | lab5/SuccinctTrie.java:69-75 | one queued child and one label per key |
| LoudsLists.ChildAt | lab5/SuccinctTrie.java:69-74 | the j-th child of node m is child number (keys before m) + j, with label byte (byte) key |
| LoudsLists.LayoutStep | lab5/SuccinctTrie.java:64-77 | visiting one more node appends its children, its set bits and terminator, and its labels |
| LoudsLists.EmitChild | lab5/SuccinctTrie.java:69-74 | emitting the next key in increasing order keeps the listing sorted and the state consistent |
| LoudsLists.EndNode | lab5/SuccinctTrie.java:76 | the terminator bit finishes a node and records its key list |
| LoudsLists.TraversalEnd | lab5/SuccinctTrie.java:64-77 | an emptied queue leaves a listing that is its own fixed point and a complete layout |
| LoudsLists.LayoutCounts | lab5/SuccinctTrie.java:62-81 | nodes == labels + 1, bitLen == 2 * labels + 1, set bits == labels |
| LoudsLists.ChildEdge | lab5/SuccinctTrie.java:69-74 | an edge is a set bit below length(); rank1 gives the child id, rank0 the parent id, parent < child |
| LoudsLists.ChildrenEnd | lab5/SuccinctTrie.java:76 | after node m's last edge comes a clear bit |
| LoudsLists.Terminator | lab5/SuccinctTrie.java:106 | node m's edges start just after the m-th clear bit |
| LoudsLists.ChildrenStart | lab5/SuccinctTrie.java:106 | for a node with children that clear bit lies below length() |
| LoudsLists.ParentEdge | lab5/SuccinctTrie.java:132 | every non-root id is the child of one edge, which select1(id - 1) can find |
| LoudsNav.FirstMatch | lab5/SuccinctTrie.java:109-115 | the first label whose byte equals the character, or none |
| LoudsNav.Scanned | lab5/SuccinctTrie.java:106 | the scan for node id starts at that node's edges or, after select0 fails, at the root's |
| LoudsNav.Step | lab5/SuccinctTrie.java:104-118 | one character's scan: -1 exactly when no label matches, otherwise the child node spelling parent + label |
| LoudsNav.Navigate | lab5/SuccinctTrie.java:100-122 | the walk of a word stays among node ids or gives -1 |
| LoudsNav.ScannedWithChildren | lab5/SuccinctTrie.java:106 | a node with children is scanned at its own edges |
| LoudsNav.FirstMatchAscii | lab5/SuccinctTrie.java:111 | among increasing labels, an ASCII character matches its own label |
| LoudsNav.FirstMatchNonAscii | lab5/SuccinctTrie.java:111 | a non-ASCII character matches no byte |
| LoudsNav.StepFindsChild | lab5/SuccinctTrie.java:104-118 | an ASCII label of node m leads to the child with that label |
| LoudsNav.StepNonAscii | lab5/SuccinctTrie.java:111-117 | looking up a non-ASCII character always fails |
| SuccinctTrie.Trie.constructor | lab5/SuccinctTrie.java:58 | a trie with the root only |
| SuccinctTrie.Trie.Insert | lab5/SuccinctTrie.java:90-95 | the trie gains exactly the prefixes of the word and stays well formed |
| SuccinctTrie.Trie.AddChild | lab5/SuccinctTrie.java:93 | a fresh node becomes child c of node n and nothing else changes |
| SuccinctTrie.ChildKeys | lab5/SuccinctTrie.java:66 | a node's key set is the set of its children's labels |
| SuccinctTrie.BuildTrie | lab5/SuccinctTrie.java:58-59 | inserting the vocabulary gives the trie of its prefix closure |
| SuccinctTrie.TraversalDone | lab5/SuccinctTrie.java:64-77 | a finished traversal of a prefix-closed set encodes it |
| SuccinctTrie.VisitStep | lab5/SuccinctTrie.java:69-75 | one iteration of the inner loop keeps the traversal state |
| SuccinctTrie.EmitChildren | lab5/SuccinctTrie.java:69-75 | the inner loop sets one bit, queues one child and writes one label per key, in key order |
| SuccinctTrie.ScanStart | lab5/SuccinctTrie.java:61-62 | the queue starts with the root at bit position 0 |
| SuccinctTrie.ScanNode | lab5/SuccinctTrie.java:65-67 | the node polled next is the next listed node, and its sorted keys are its children's labels |
| SuccinctTrie.ScanNext | lab5/SuccinctTrie.java:76 | the terminator bit finishes the node |
| SuccinctTrie.BuildLouds | lab5/SuccinctTrie.java:53-84 | buildLouds returns the LOUDS encoding of the vocabulary's prefix closure: one label per non-root node, two bits per edge plus one, and one set bit per label |
| SuccinctTrie.ScanEnd | lab5/SuccinctTrie.java:64-77 | an empty queue means every listed node was visited |
| SuccinctLookup.ChildByLabel | lab5/SuccinctTrie.java:105-117 | the child scan of one character gives Step's node id, or -1 where Java throws |
| SuccinctLookup.ScanChildren | lab5/SuccinctTrie.java:109-115 | the for loop over the child bits stops at the first label equal to the character |
| SuccinctLookup.ScanAt | lab5/SuccinctTrie.java:109-111 | the loop's bit is set exactly while edges remain; its rank1 is the child id and its label the key's byte |
| SuccinctLookup.ScanBit | lab5/SuccinctTrie.java:109-111 | the bits the scan of node m meets are its edges, then its terminator |
| SuccinctLookup.ScanStart | lab5/SuccinctTrie.java:106 | select0(nodeId - 1) + 1 is where the scanned node's edges start |
| SuccinctLookup.WalkWord | lab5/SuccinctTrie.java:101-119 | the walk of a word gives Navigate's node id |
| SuccinctLookup.NavigateFails | lab5/SuccinctTrie.java:117 | once a prefix's walk fails, the word's walk fails |
| SuccinctLookup.BuildNodeIdPointers | lab5/SuccinctTrie.java:97-125 | succeeds exactly when every word's walk succeeds, with one pointer per word; otherwise names the first word, in vocabulary order, whose walk fails, the word Java's exception names |
| SuccinctLookup.NavigateWord | lab5/SuccinctTrie.java:100-122 | walking a word of the set reaches its own node exactly when the word is ASCII |
| SuccinctLookup.ToTerm | lab5/SuccinctTrie.java:127-136 | toTerm(id) is the node's string read back through bytes; "" for ids <= 0 |
| SuccinctLookup.ParentExists | lab5/SuccinctTrie.java:131-132 | a node id >= 1 has a label and an edge that select1 finds |
| SuccinctLookup.ClimbStep | lab5/SuccinctTrie.java:130-133 | one climb reaches a strictly smaller id (so toTerm terminates) and keeps the collected suffix |
| SuccinctLookup.ParentOf | lab5/SuccinctTrie.java:132 | rank0(select1(id - 1)) is the parent and the label at id - 1 is the edge's key |
| SuccinctLookup.VocabularyWords | lab5/SuccinctTrie.java:97-125 | every vocabulary word is found in its encoding exactly when it is ASCII |
| SuccinctLookup.RecoverWord | lab5/SuccinctTrie.java:37-45 | build, resolve, then toTerm(ptr[idx]) == vocab[idx] exactly when all words are ASCII; otherwise the first non-ASCII word of the vocabulary is reported |
| SuccinctLookup.SameWordsSameLouds | lab5/SuccinctTrie.java:53-84 | the bits and labels depend only on which words occur |
| FrontCoding.Low8 | lab5/FrontCoding.java:37 | write(int) keeps values 0..255 |
| FrontCoding.Lcp | lab5/FrontCoding.java:138-143 | a common prefix length bounded by both lengths, after which the strings differ or one ends |
| FrontCoding.LongestCommonPrefix | lab5/FrontCoding.java:138-143 | the counter loop returns Lcp |
| FrontCoding.LcpUnique | lab5/FrontCoding.java:138-143 | any common prefix length where the strings part is Lcp, i.e. the largest one |
| FrontCoding.BlockLcp | lab5/FrontCoding.java:45-51 | at most the first term's length; every block member has the first term's prefix of that length |
| FrontCoding.BlockLcpMaximal | lab5/FrontCoding.java:45-51 | the block prefix cannot be extended |
| FrontCoding.BlockLcpStep | lab5/FrontCoding.java:49-51 | one more term lowers lcp to the min with its Lcp |
| FrontCoding.SuffixesAppend | lab5/FrontCoding.java:62-71 | each term adds its length byte and its bytes after lcp |
| FrontCoding.Compressed | lab5/FrontCoding.java:33-78 | the stream starts with k; the empty list gives [k] |
| FrontCoding.Compress | lab5/FrontCoding.java:33-78 | compress writes Compressed(terms, k), block after block |
| FrontCoding.NextBlock | lab5/FrontCoding.java:40-75 | writing the block at i moves on by min(k, remaining) terms |
| FrontCoding.EncodeBlocksFrom | lab5/FrontCoding.java:40-75 | blocks are consecutive groups of min(k, remaining) terms |
| FrontCoding.BlockPrefix | lab5/FrontCoding.java:45-51 | the lcp loop gives BlockLcp |
| FrontCoding.WriteBlock | lab5/FrontCoding.java:42-74 | one iteration appends the block's encoding |
| FrontCoding.WriteSuffixes | lab5/FrontCoding.java:62-71 | the suffix loop appends the suffix records |
| FrontCoding.BlockWritten | lab5/FrontCoding.java:54-71 | lcp byte, first length and bytes, then suffixes |
| FrontCoding.ReadSuffixes | lab5/FrontCoding.java:108-118 | a successful suffix read stays inside the stream |
| FrontCoding.Decompress | lab5/FrontCoding.java:84-124 | decompress gives Decompressed(data), including every EOFException |
| FrontCoding.ReadBlockSuffixes | lab5/FrontCoding.java:108-118 | the suffix loop reads blockSize - 1 records |
| FrontCoding.SuffixNext | lab5/FrontCoding.java:108-118 | one suffix record: EOF on a missing length or bytes, otherwise the term first[0:lcp] + suffix |
| FrontCoding.BlockNext | lab5/FrontCoding.java:91-121 | one block: EOF on a missing header or first term, otherwise the state moves to the next block |
| FrontCoding.ReadSuffixesOf | lab5/FrontCoding.java:108-118 | reading the records as written gives the terms back, or EOF when more records are asked for than remain |
| FrontCoding.FirstRecord | lab5/FrontCoding.java:110-117 | the first record's length byte and bytes complete the term |
| FrontCoding.BlockFields | lab5/FrontCoding.java:96-105 | the block header read back: lcp, first length, first term |
| FrontCoding.BlockRead | lab5/FrontCoding.java:91-121 | a block read with as many records as written gives the block, then the rest of the stream |
| FrontCoding.BlockReadPastEnd | lab5/FrontCoding.java:93-114 | a final block asked for more records than it has fails with EOF |
| FrontCoding.ReadBlocksHeader | lab5/FrontCoding.java:93-118 | the reader at a block header: the block and the rest, or EOF past the end |
| FrontCoding.ReadBlocksAt | lab5/FrontCoding.java:93-118 | the reader at a block header, given the result of its suffix loop |
| FrontCoding.ReadBlocksFixed | lab5/FrontCoding.java:91-121 | the corrected reader decodes all blocks that end the stream |
| FrontCoding.ReadBlocksAsWritten | lab5/FrontCoding.java:91-121 | the reader as written decodes n full blocks of k terms |
| FrontCoding.ShortTailFails | lab5/FrontCoding.java:93-114 | full blocks followed by a short one fail with EOF |
| FrontCoding.FullBlockRead | lab5/FrontCoding.java:91-121 | a full block is read back by the reader as written |
| FrontCoding.ShortBlockFails | lab5/FrontCoding.java:93-114 | a final block shorter than k fails with EOF |
| FrontCoding.FirstBlockOf | lab5/FrontCoding.java:40-75 | the first block is the first min(k, \|ts\|) terms, and the rest follows it |
| FrontCoding.BlockLength | lab5/FrontCoding.java:54-71 | a block takes more bytes than it has terms |
| FrontCoding.Blocks | lab5/FrontCoding.java:42-74 | m terms make m / k full blocks and m % k left over |
| FrontCoding.StreamLayout | lab5/FrontCoding.java:37-75 | the stream is k, then the blocks, which end it |
| FrontCoding.RoundTrip | lab5/FrontCoding.java:33-124 | decompress(compress(T, k)) == T when \|T\| is a multiple of k, 1 <= k < 256, lengths < 256 |
| FrontCoding.ShortFinalBlockFails | lab5/FrontCoding.java:93-114 | decompress(compress(T, k)) fails with EOF whenever \|T\| is not a multiple of k |
| FrontCoding.RoundTripFixed | lab5/FrontCoding.java:84-124 | the corrected decoder gives every list back |
| FrontCoding.OneTermExample | lab5/FrontCoding.java:93-114 | ["a"] with k = 2 compresses to 2,1,1,'a' and does not decompress; the corrected decoder gives ["a"] |
| DictTrie.EndsMark | lab1/Main.java:31 | setting isEnd adds the node's string to the words |
| DictTrie.EndsAt | lab1/Main.java:47 | a node's string is a word exactly when its flag is set |
| DictTrie.SearchStops | lab1/Main.java:50-52 | breaking at a missing child loses no longer word |
| DictTrie.NoWordPast | lab1/Main.java:50-52 | no word extends past a missing child |
| DictTrie.Trie.constructor | lab1/Main.java:16-18 | an empty trie: the root only, no words |
| DictTrie.Trie.Insert | lab1/Main.java:23-32 | the trie gains the word's prefixes and the word; inserting a present word changes nothing (idempotent) |
| DictTrie.Trie.Walk | lab1/Main.java:24-30 | the loop ends at the node spelling the word and adds only its prefixes |
| DictTrie.Trie.MarkEnd | lab1/Main.java:31 | node.isEnd = true adds the node's string to the words and nothing else |
| DictTrie.Trie.Child | lab1/Main.java:26-29 | one step: the child spelling parent + c, created when missing |
| DictTrie.Trie.AddChild | lab1/Main.java:27 | a fresh non-end node becomes child c |
| DictTrie.Trie.NodeChild | lab1/Main.java:44-46 | a node string extending n's by c lies below n's child c |
| DictTrie.Trie.SearchLongestPrefix | lab1/Main.java:39-55 | the longest non-empty inserted word that is a prefix of s, or null |
| DictTrie.BuildDict | lab1/Main.java:92-97 | inserting the dictionary lines gives a trie holding exactly those words |
| MaxMatch.LongestIn | lab1/TimeTest.java:19-34 | the longest window prefix of length 1..k in the dictionary, and none when no such prefix is a word |
| MaxMatch.LongestWordUnique | lab1/Main.java:39-55 | the longest word prefix is unique |
| MaxMatch.LongestWordFinds | lab1/Main.java:39-55 | after inserting non-empty w, a search of any s starting with w finds a word at least as long as w |
| MaxMatch.LongestInSkip | lab1/Main.java:50-52 | prefixes past k that are not words do not change the answer |
| MaxMatch.Window | lab1/Main.java:73 | the window is the first min(maxLen, \|s\|) characters |
| MaxMatch.Token | lab1/Main.java:73-85 | a token is a non-empty prefix, at most maxLen long, that is a word or a single character |
| MaxMatch.TokenGreedy | lab1/Main.java:73-80 | the token is the longest word prefix of the window, or its first character when there is none |
| MaxMatch.SegmentConcat | lab1/Main.java:67-88 | the tokens concatenate to the text |
| MaxMatch.SegmentTokens | lab1/Main.java:73-85 | every token is non-empty, at most maxLen long, and a word or a single character |
| MaxMatch.SegmentGreedy | lab1/Main.java:73-80 | each token is the greedy match where the previous tokens end |
| Segmentation.Advance | lab1/TimeTest.java:23-25 | taking a token off the remainder moves fmm on |
| Segmentation.MatchedToken | lab1/TimeTest.java:21-26 | a window prefix found when no longer one is a word is the token |
| Segmentation.SingleToken | lab1/TimeTest.java:29-32 | a one-character window prefix that is no word is the token |
| Segmentation.Shrink | lab1/TimeTest.java:34 | dropping the last character of a non-word keeps the longest match |
| Segmentation.FmmList | lab1/TimeTest.java:12-38 | fmm over a word list gives Segment over its words |
| Segmentation.GroupedMember | lab1/TimeTest.java:86-98 | looking up cur under its length finds exactly the dictionary words |
| Segmentation.FmmByLength | lab1/TimeTest.java:77-115 | fmm over dictMap gives Segment over the grouped words |
| Segmentation.FmmTrie | lab1/Main.java:67-88 | fmm over the trie gives Segment over the trie's words |
| Segmentation.OfLength | lab1/TimeTest.java:174-180 | the list of length l holds exactly the words of that length |
| Segmentation.GroupedListed | lab1/TimeTest.java:171-180 | the grouped dictionary holds exactly the words of dict |
| Segmentation.GroupByLength | lab1/TimeTest.java:171-180 | version2's loop groups dict by length, creating each list on first use |
| Segmentation.GroupStep | lab1/TimeTest.java:175-179 | adding one word keeps the grouping |
| Segmentation.Versions | lab1/TimeTest.java:123-259 | the three versions write the same segmentation: list, by length and trie |
| QueryParser.Flush | lab3/Main.java:17-20 | a non-empty buffer becomes a token when a non-word character follows |
| QueryParser.LoneChar | lab3/Main.java:16-26 | whitespace is skipped, a parenthesis is a token of its own |
| QueryParser.ReadSpace | lab3/Main.java:16-20 | whitespace flushes the buffer |
| QueryParser.ReadParen | lab3/Main.java:21-26 | a parenthesis flushes the buffer and is added |
| QueryParser.ReadWord | lab3/Main.java:27-29 | a word character extends the buffer |
| QueryParser.Tokenize | lab3/Main.java:11-37 | tokenize gives Tokens(query) |
| QueryParser.TokensWellFormed | lab3/Main.java:15-34 | no empty token, none with whitespace, and parentheses stand alone |
| QueryParser.TokensSpellQuery | lab3/Main.java:11-37 | the tokens spell the query with its whitespace removed |
| QueryParser.TokensOfJoin | lab3/Main.java:11-37 | well-formed tokens joined by spaces tokenize back to themselves |
| ShuntingYard.Precedence | lab3/Main.java:40-46 | getOrDefault: at most 3, positive exactly for NOT, AND, OR |
| ShuntingYard.Upper | lab3/Main.java:60 | every ASCII lower-case letter becomes its upper case and every other character is kept, so the length is kept (Java's toUpperCase need not keep it; see Left out) |
| ShuntingYard.KeyIsOperatorName | lab3/Main.java:43-45 | the precedence keys are operator names in any case |
| ShuntingYard.ToPostfix | lab3/Main.java:48-76 | toPostfix gives Postfix(tokens), failing where Java throws |
| ShuntingYard.PopAtLeastMoves | lab3/Main.java:61-64 | popping operators of greater-or-equal precedence moves them to the output |
| ShuntingYard.PopToOpenMoves | lab3/Main.java:56-58 | popping to "(" stops at a "(" exactly when the stack holds one |
| ShuntingYard.StepFacts | lab3/Main.java:52-68 | a step keeps operands in order and parentheses counted; ")" succeeds only over a "(" |
| ShuntingYard.RunMatched | lab3/Main.java:55-59 | a run that returns never closes more parentheses than are open |
| ShuntingYard.FlushFacts | lab3/Main.java:71-73 | the final flush pops the stack top first |
| ShuntingYard.PostfixShape | lab3/Main.java:48-76 | the output keeps the non-parenthesis tokens with their counts and operands in input order, plus one "(" per unmatched "(" |
| ShuntingYard.PostfixBalanced | lab3/Main.java:53-59 | with balanced parentheses the output has none and is shorter by their number |
| ShuntingYard.UnmatchedCloseFails | lab3/Main.java:59 | an unmatched ")" pops an empty stack |
| ShuntingYard.RunSucceeds | lab3/Main.java:48-76 | matched parentheses and upper-case operators make the loop return |
| ShuntingYard.PostfixSucceeds | lab3/Main.java:48-76 | toPostfix returns under those conditions |
| PostfixEvaluator.Intersection | lab3/Main.java:101-105 | x is in the result iff in both sets |
| PostfixEvaluator.Union | lab3/Main.java:107-111 | x is in the result iff in either set |
| PostfixEvaluator.Difference | lab3/Main.java:113-117 | x is in the result iff in set2 and not in set1 |
| PostfixEvaluator.EvaluatePostfix | lab3/Main.java:79-99 | evaluatePostfix gives Evaluation, failing where stack.pop() throws |
| PostfixEvaluator.EvalRunWithin | lab3/Main.java:82-96 | sets built from posting sets inside allFiles stay inside allFiles |
| PostfixEvaluator.EvaluationWithin | lab3/Main.java:101-117 | when every index set is inside allFiles, so is the result |
| PostfixEvaluator.EmptyQuery | lab3/Main.java:98 | an empty postfix gives the empty set |
| BooleanQuery.PushOp | lab3/Main.java:61-65 | an operator over a lower stack is pushed without popping |
| BooleanQuery.ShuntInfix | lab3/Main.java:48-76 | the written form of a query moves its postfix form to the output at any stack |
| BooleanQuery.ShuntParen | lab3/Main.java:53-59 | a parenthesised query shields the stack below |
| BooleanQuery.ShuntNot | lab3/Main.java:60-65 | NOT waits for its operand, then leaves |
| BooleanQuery.ShuntBinary | lab3/Main.java:60-65 | AND and OR wait for their right operand, then leave |
| BooleanQuery.ToPostfixCorrect | lab3/Main.java:48-76 | a valid query written with fewest parentheses converts to its postfix form |
| BooleanQuery.PostfixFixedCorrect | lab3/Main.java:48-76 | the corrected conversion also reads NOT NOT x without parentheses |
| BooleanQuery.EvalPostfixOf | lab3/Main.java:79-99 | a query's postfix form pushes exactly the set of files satisfying it |
| BooleanQuery.EvalOperator | lab3/Main.java:85-92 | AND and OR replace the two top sets by their intersection or union |
| BooleanQuery.EvaluationCorrect | lab3/Main.java:79-99 | evaluation of the postfix form gives the files satisfying the query |
| BooleanQuery.Search | lab3/Main.java:137-139 | the three stages in Main's order give Answer |
| BooleanQuery.InfixWellFormed | lab3/Main.java:11-37 | every token of the written form is one tokenize can yield |
| BooleanQuery.SearchCorrect | lab3/Main.java:137-139 | a valid query written in its canonical form (single spaces, the fewest parentheses the precedences and left association allow, and `NOT ( NOT x )` for a double NOT) finds exactly the files that satisfy it |
| BooleanQuery.SearchFixedCorrect | lab3/Main.java:137-139 | with the corrected conversion, also with NOT NOT unparenthesised |
| BooleanQuery.DoubleNot | lab3/Main.java:60-65 | NOT NOT a converts to NOT a NOT and fails to evaluate; the corrected conversion gives allFiles - (allFiles - a) |
| BooleanQuery.DoubleNotThrows | lab3/Main.java:86 | the as-written pipeline fails on NOT NOT a |
| BooleanQuery.DoubleNotFixed | lab3/Main.java:60-65 | the corrected pipeline answers NOT NOT a |
| BooleanQuery.DoubleNotTokens | lab3/Main.java:11-37 | "NOT NOT a" tokenizes to the written form of Not(Not(a)) |
| BooleanQuery.DoubleNotConverts | lab3/Main.java:61-65 | the second NOT pops the first |
| BooleanQuery.DoubleNotFails | lab3/Main.java:85-86 | NOT a NOT pops an empty stack |
| BooleanQuery.LowerCaseOperator | lab3/Main.java:60-62 | a and b converts; a and b and c fails on the null precedence |
| BooleanQuery.LowerCaseConverts | lab3/Main.java:60-65 | a lower-case operator over an empty stack is pushed |
| BooleanQuery.LowerCaseThrows | lab3/Main.java:62 | over a non-empty stack its precedence is null |
| RankedRetrieval.TrimStart | lab6/Main.java:22 | trim drops the leading characters <= ' ' and no more |
| RankedRetrieval.TrimEnd | lab6/Main.java:22 | trim drops the trailing characters <= ' ' and no more |
| RankedRetrieval.TrimEmpty | lab6/Main.java:23 | a token trims to "" exactly when it is all blank |
| RankedRetrieval.TrimTwice | lab6/Main.java:22 | trim is idempotent |
| RankedRetrieval.TermFreqNext | lab6/Main.java:21-26 | one more token adds one count exactly when it is kept |
| RankedRetrieval.CountToken | lab6/Main.java:23-25 | getOrDefault + 1 for a kept token, nothing otherwise |
| RankedRetrieval.NewDocument | lab6/Main.java:17-27 | the constructor's termFreq is TermFreq(tokens, stopWords) |
| RankedRetrieval.TallyCounts | lab6/Main.java:24 | a tally holds each string with its number of occurrences, and nothing else |
| RankedRetrieval.TermFreqCounts | lab6/Main.java:20-26 | termFreq[t] is the number of tokens trimming to t, for t non-empty and not a stop word; no other key |
| RankedRetrieval.TermFreqTotal | lab6/Main.java:20-26 | the counts add up to the number of kept tokens |
| RankedRetrieval.PostingNext | lab6/Main.java:84-89 | one more document extends the postings of its terms and the vocabulary |
| RankedRetrieval.PostingMembers | lab6/Main.java:84-89 | a posting list holds exactly the documents with the term; there is one exactly for the vocabulary |
| RankedRetrieval.VocabularyMembers | lab6/Main.java:58-61 | the vocabulary is the union of the termFreq keys |
| RankedRetrieval.CountedDocument | lab6/Main.java:58-61 | one count per term of the document keeps dfMap the document frequencies |
| RankedRetrieval.Corpus.constructor | lab6/Main.java:44-47 | an empty corpus |
| RankedRetrieval.Corpus.AddDocument | lab6/Main.java:57-61 | documents.add(doc) and the dfMap/vocabulary loop keep them exact |
| RankedRetrieval.Corpus.LoadDocuments | lab6/Main.java:49-67 | the corpus gains the loaded documents with exact dfMap and vocabulary |
| RankedRetrieval.DocumentFrequency | lab6/Main.java:58-61 | dfMap[t] is the number of documents containing t, between 1 and the corpus size; its keys are the vocabulary |
| RankedRetrieval.FirstMin | lab6/Main.java:101 | a document of least TF in the heap |
| RankedRetrieval.OfferPoll | lab6/Main.java:99-102 | the polled document has no more TF than any that stays |
| RankedRetrieval.Polled | lab6/Main.java:99-102 | offer then poll loses and adds nothing |
| RankedRetrieval.Drain | lab6/Main.java:106-108 | polling the heap empty yields non-decreasing TF |
| RankedRetrieval.Reversed | lab6/Main.java:109 | after Collections.reverse the list is by non-increasing TF |
| RankedRetrieval.ChampionFrom | lab6/Main.java:105-110 | a reversed drain of the kept heap is a champion list |
| RankedRetrieval.TopR | lab6/Main.java:91-110 | the heap loop gives a champion list: min(r, \|posting\|) documents of the posting by non-increasing TF, none dropped above one kept |
| RankedRetrieval.Offer | lab6/Main.java:98-103 | the heap keeps min(r, offered) documents, every dropped one below every kept one |
| RankedRetrieval.OfferOne | lab6/Main.java:99-102 | offer, then poll above r: contents, sizes and dominance |
| RankedRetrieval.PollAll | lab6/Main.java:106-108 | the polled list holds the heap by non-decreasing TF |
| RankedRetrieval.ChampionComplete | lab6/Main.java:98-103 | with r >= \|posting\| the champion list holds the whole posting list |
| RankedRetrieval.ChampionFirst | lab6/Main.java:104-109 | the first champion has the highest TF of the posting list |
| RankedRetrieval.ChampionMembers | lab6/Main.java:98-103 | champions come from the posting list |
| RankedRetrieval.Postings | lab6/Main.java:82-89 | the postings have a key exactly for the vocabulary, each listing its documents in corpus order |
| RankedRetrieval.Appended | lab6/Main.java:84-89 | appending a document to each of its terms' lists extends the postings |
| RankedRetrieval.Ids | lab6/Main.java:107 | the ids of the documents, in order |
| RankedRetrieval.InvertedIndex.constructor | lab6/Main.java:79 | an empty champion list map |
| RankedRetrieval.InvertedIndex.Build | lab6/Main.java:81-112 | a key for each vocabulary term holding the ids of a champion list; other keys unchanged |
| RankedRetrieval.Candidates | lab6/Main.java:170-176 | an id is a candidate iff it is in the champion list of some query term |
| RankedRetrieval.QueryCandidates | lab6/Main.java:170-176 | the query terms (untrimmed, non-blank, not stop words, as QueryVector keeps them at lab6/Main.java:125-130), then the union of their champion lists |
| RankedRetrieval.QueryTermsNext | lab6/Main.java:126-129 | one more query token adds it exactly when it is kept |
| RankedRetrieval.CandidateSound | lab6/Main.java:170-176 | every candidate is the id of a document holding a query term |
| RankedRetrieval.CandidateComplete | lab6/Main.java:170-176 | with r >= number of documents, every document holding a query term is a candidate |

## Left out

- I/O, the command line, `main`, timing and the `Scanner` loops are not modelled. Inputs are parameters: the vocabulary, the word lists, each document's id and token list, the query string, the index and allFiles.
- Word segmentation: jieba's `sentenceProcess` is a call into a library, so its token list is a parameter.
- Floating point: `computeTFIDF`, the `QueryVector` weights and norm, cosine scoring and the top-K heap of `query`, and `ExactSearcher` are left out. Of `QueryVector`, only its key set (the query terms) is modelled.
- `loadDocuments` takes the id and content of each `.txt` file as given. The `.txt` name filter and `Integer.parseInt` of the file name are left out, as is the `computeTFIDF` pass.
- `Document` is a value holding an id and termFreq. `content`, `tfidf` and `norm` are not modelled.
- RankedRetrieval.TopR: `PriorityQueue` breaks ties in an unspecified order. The model chooses any minimum, so champion lists are fixed only up to documents of equal TF. The ids are taken after polling, not during it. That changes nothing, since each poll's document and id go together.
- `HashMap` and `HashSet` iteration order is left open. Loops over key sets pick any remaining key.
- `saveLouds` uses `DataOutputStream` and `BitSet.toByteArray` packing, which are library calls, and is left out.
- The random sample in `SuccinctTrie.main` is left out. What it demonstrates is SuccinctLookup.RecoverWord for any index.
- UTF-8: front-coding terms are byte sequences, on which `getBytes`/`new String` are the identity for ASCII text. In the succinct trie, characters are Dafny chars and labels are modelled with the Java casts.
- Java strings are sequences of UTF-16 code units; the model's strings are sequences of Dafny chars, which are Unicode scalar values. The model is exact for text in the Basic Multilingual Plane (no surrogate pairs) in the two tries, the three fmm versions, the query tokenizer, shunting-yard and the ranked retrieval code. A supplementary character such as U+20000 is two Java chars: the Java tries give it two nodes and two labels (lab5/SuccinctTrie.java:92, :104; lab1/Main.java:25, :43), a maxLen window can cut it in half (lab1/TimeTest.java:18, lab1/Main.java:73) and the one-character fallback can emit a lone surrogate (lab1/Main.java:83). None of this happens in the model, where it is one char.
- FrontCoding: exact for ASCII terms only. Java computes the LCP and cuts suffixes in UTF-16 chars (lab5/FrontCoding.java:46, :50, :65, :114, :138-143); the model's Lcp counts bytes of the UTF-8 encoding. On non-ASCII terms the two write different streams: for ["中国","中文"] with k = 2 Java writes lcp 1 and the model writes lcp 3. A byte-level LCP can also end inside a character (中 and 丫 share 2 bytes), and Java's decompress would then throw at `first.substring(0, lcp)` on a stream the model writes.
- FrontCoding.RoundTrip: stated for 1 <= k < 256 and terms (and so suffixes) shorter than 256 bytes. Longer lengths are truncated by `write(int)` (modelled by Low8) and do not round-trip.
- FrontCoding.Compress: requires k >= 1 (k is a nat), and so leaves out three Java behaviours. With k = 0 and a non-empty list the loop never advances, and a diverging loop is not modelled. With k < 0 and a non-empty list the first block is written, then `i += blockSize` makes i negative and the next `terms.get(i)` throws IndexOutOfBoundsException (lab5/FrontCoding.java:42, :45, :74). With k <= 0 and an empty list Java returns the single byte `k & 0xFF` (lab5/FrontCoding.java:37-40); the model's Compressed gives that byte only for k >= 1.
- Segmentation.FmmList, Segmentation.FmmByLength, Segmentation.FmmTrie: require maxLen >= 1, and so leave out three Java behaviours. With an empty str all three return [] for any maxLen, since the outer loop does not run. With maxLen == 0 and a non-empty str the window is empty: the list and map versions loop forever, and the trie version throws at `cur.substring(0, 1)` (lab1/Main.java:83). With maxLen < 0 and a non-empty str, `substring(0, Math.min(maxLen, remainder.length()))` gets a negative end index and all three throw StringIndexOutOfBoundsException (lab1/TimeTest.java:18, :83; lab1/Main.java:73).
- The performance of the naive rank and select scans is not modelled.
- BooleanQuery.SearchCorrect: covers one written form per query, the canonical form of its row. Other ways of typing the same query are not covered: redundant parentheses such as "( a ) AND b" or "( a AND b ) AND c", spacing other than single spaces, and "NOT NOT a", which fails as written (BooleanQuery.DoubleNot, BooleanQuery.DoubleNotThrows). BooleanQuery.SearchFixedCorrect has the same scope, with NOT NOT written without parentheses.
- QueryParser.IsWhitespace: follows `Character.isWhitespace` as of Unicode 6.3 (Java 9 and later). Under Java 8 (Unicode 6.2) U+180E is whitespace too, so a query holding it would be split there.
- ShuntingYard.Upper: upper-cases ASCII letters only, keeps every other character, and so keeps the length. Java's `toUpperCase` also maps non-ASCII characters, and some of them to several characters, so Java's result can be longer: ß gives SS, the ligatures ﬀ ﬁ ﬂ ﬃ ﬄ ﬅ ﬆ give FF, FI, FL, FFI, FFL, ST, ST, ŉ gives ʼN, ẗ gives T followed by U+0308, and ẚ gives A followed by U+02BE. This does not change which tokens count as operator names (lab3/Main.java:60): the only non-ASCII characters whose upper case is made of ASCII letters alone are ı (I), ſ (S), ß and the ligatures, whose letters I, S, F, L and T (ﬅ, ﬆ only together with S) cannot make up NOT, AND or OR; every other non-ASCII character upper-cases to something that still holds a non-ASCII character. So a token with a non-ASCII character never upper-cases to exactly NOT, AND or OR, and ASCII upper-casing decides `containsKey` as Java does. Only the model's upper-cased text of such a token differs, and that text is not kept.

## Findings

| source | as written | input that shows it | evidently intended | confidence | as-written member | corrected member |
|---|---|---|---|---|---|---|
| lab5/FrontCoding.java:93 | the block size is `min(k, in.available())`, which counts bytes, not terms, so a short final block asks for more suffix records than were written | terms ["a"], k = 2: the stream 2,1,1,'a' ends in EOFException | read the remaining terms of a short final block: stop the suffix loop at the end of the stream | not executed | FrontCoding.ShortFinalBlockFails | FrontCoding.RoundTripFixed |
| lab3/Main.java:61-65 | NOT pops operators of greater-or-equal precedence, including an earlier NOT, so NOT NOT a becomes NOT a NOT | the query "NOT NOT a": evaluatePostfix pops an empty stack | NOT is a right-associative prefix operator that pops nothing | not executed | BooleanQuery.DoubleNot | BooleanQuery.SearchFixedCorrect |
