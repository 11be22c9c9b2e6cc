# Lossless text codec, modelled in Dafny

This project models the lossless text-compression codec of `SCRIPTS/COMPRESSION/lib` and proves properties of the model. The codec is a chain of transforms:

1. **Dictionary builders** count entities, word n-grams and words in a corpus. They keep the most frequent spelling, apply a count threshold and number the survivors:
   - `D:`/`E:`/`U:`/`IP:` entity ids;
   - `P####` phrase ids;
   - the 39 fixed `_xx` common-word ids, and `W:<stem><nnn>` for the other words.
2. **The substitution coder (HACS)** tokenises a text greedily: entity, then phrase, then word, then a literal character. Its decoder concatenates the token texts. The binary container writer lays the token stream out as bytes.
3. **The pattern stage (CDIS)** enumerates token n-grams and scores them with an integer savings formula. It numbers the winners `C####` and substitutes them left to right, longest first, without overlap.
4. **The entropy stage**:
   - the token-level Huffman encoder (v2) and its decoder, which walks a code trie and re-expands pattern keys;
   - the older character-level encoder (v1), with its escape code for unseen characters.

One module per source file:

| file | module | source |
|---|---|---|
| `entity_dict.dfy` | `EntityDict` | `build_entity_dict.py` |
| `phrase_dict.dfy` | `PhraseDict` | `build_phrase_dict.py` |
| `word_dict.dfy` | `WordDict` | `build_word_dict.py` |
| `hacs_encode.dfy` | `HacsEncode` | `hacs_encode.py` |
| `hacs_decode.dfy` | `HacsDecode` | `hacs_decode.py` |
| `hacs_binary.dfy` | `HacsBinary` | `hacs_to_binary.py` |
| `patterns.dfy`, `substitution.dfy` | `Patterns`, `Substitution` | `cdis_detect_patterns.py` |
| `huffman.dfy`, `bit_packing.dfy`, `entropy_v2.dfy` | `Huffman`, `BitPacking`, `EntropyV2` | `cdis_entropy_encode_v2.py` |
| `entropy_decode.dfy` | `EntropyDecode` | `cdis_entropy_decode.py` |
| `entropy_v1.dfy` | `EntropyV1` | `cdis_entropy_encode.py` |

Shared modules:

- `common.dfy`: `Option`, `Result`, the `Fault` each `raise` becomes, and ASCII text helpers.
- `decimal.dfy`: zero-padded numerals and their values.
- `grouping.dfy`: Python dicts with their insertion order, `defaultdict(list)`, `Counter` and `most_common`.
- `sorting.dfy`: the stable sort by decreasing key.
- `tokens.dfy`: tokens and the tuple keys built from them.
- `scan.dfy`: `\b\w+\b` word runs.

How the model represents the source:

- A Python dict is `Grouping.Dict(members, order)`: a map plus its insertion order. Assignment keeps the position of an existing key.
- Loops that fill lists, dicts or bit strings are Dafny methods with `while`/`for` loops. Each is proved equal to a specification function, and the properties are lemmas about that function.
- Each `raise` is an `Err` carrying a `Fault`.
- Python's unbounded ints are Dafny `int`/`nat`. Bytes are `0..255` and bits `0..1`.
- The entropy decoder's recursion limit is a `fuel` parameter.

Behaviour the source really has, and which the model keeps:

- The token-level encoder fails on an empty stream (`EntropyV2.CompressEmpty`). The character-level encoder fails with a division by zero on a stream without symbols (`EntropyV1.CompressFails`).
- The decoder does not advance its offset past a pattern expansion, and the expansion itself restarts at offset 0 (`EntropyDecode.PatternKeepsPosition`, with the instance `EntropyDecode.PositionAfterPattern`). Pattern keys are two-part, so expanded tokens take the dictionary's spelling (`EntropyDecode.ReconstructSeqKeys`).
- The entropy decoder fails on a dictionary id that is missing, even when the key carries an `original` (`EntropyDecode.KeyFaults`). The HACS decoder instead writes a placeholder (`HacsDecode.DecodeTokens`).
- Word ids `W:<stem><nnn>` are distinct only while fewer than 1000 words are numbered. From 1000 on, two stems can meet: `WordDict.WordIdCollision` exhibits `W:v2001` for both `v` (#2001) and `v2` (#1).
- A character-level escape is `11111111` followed by `format(ord(c), '08b')`. That is 8 bits only when `ord(c) < 256`, and the escape prefix can clash with a genuine Huffman code. No decoder for this format exists in the source, and the model states what is written, not how it could be read back.

## Model

| member | source | states |
|---|---|---|
| EntityDict.IdFor | SCRIPTS/COMPRESSION/lib/build_entity_dict.py:16-56 | every entity id starts with its own kind's letter (`D`, `E`, `U`, `I`), so ids of different kinds never meet |
| EntityDict.IdPrefix | SCRIPTS/COMPRESSION/lib/build_entity_dict.py:16-56 | every entity id begins with its kind's whole prefix: `D:`, `E:`, `U:` or `IP:` |
| EntityDict.DateIdShape | SCRIPTS/COMPRESSION/lib/build_entity_dict.py:14-16 | a date's id is `D:` followed by its eight digits |
| EntityDict.DateIdInjective | SCRIPTS/COMPRESSION/lib/build_entity_dict.py:14-16 | two ISO dates get the same id exactly when they are the same date |
| EntityDict.FindHost | SCRIPTS/COMPRESSION/lib/build_entity_dict.py:41-43 | a host found after `://` is non-empty and contains no `/` |
| EntityDict.AddKind | SCRIPTS/COMPRESSION/lib/build_entity_dict.py:15-21 | one loop over a kind's matches: the keys become the old keys plus the ids of the matches; other entries are unchanged; each new entry holds a match with that id, its kind, and `count` = `frequency` = its number of occurrences |
| EntityDict.ExtractEntities | SCRIPTS/COMPRESSION/lib/build_entity_dict.py:10-64 | the dictionary's ids are exactly the ids of the dates, emails, URLs (with a host) and IPs; every entry is a match of its id's kind with its exact count; no matches give an empty dictionary |
| PhraseDict.GroupPhrases | SCRIPTS/COMPRESSION/lib/build_phrase_dict.py:24-30 | the nested counting loops build the group of every 2..6-gram under its lowercase form, in first-seen order |
| PhraseDict.NumberPhrases | SCRIPTS/COMPRESSION/lib/build_phrase_dict.py:35-51 | the numbering loop assigns the retained groups `P0001`, `P0002`, … in group order |
| PhraseDict.ExtractPhrases | SCRIPTS/COMPRESSION/lib/build_phrase_dict.py:11-53 | the builder equals the phrase dictionary of the text's words; a text without words gives an empty dictionary |
| PhraseDict.EveryGramCounted | SCRIPTS/COMPRESSION/lib/build_phrase_dict.py:24-29 | every run of 2..6 words at every start is one of the counted n-grams |
| PhraseDict.AllGramsLower | SCRIPTS/COMPRESSION/lib/build_phrase_dict.py:26-29 | every n-gram is grouped under its own lowercase form |
| PhraseDict.PhraseRetention | SCRIPTS/COMPRESSION/lib/build_phrase_dict.py:33-38 | a group is kept if and only if its count is at least `max(min_count, 2)` |
| PhraseDict.PhraseIdsConsecutive | SCRIPTS/COMPRESSION/lib/build_phrase_dict.py:35-51 | the ids are `P0001` … `P<m>` with no gap, all distinct, in retention order |
| PhraseDict.PhraseIdsDistinct | SCRIPTS/COMPRESSION/lib/build_phrase_dict.py:45-45 | the numbered ids never repeat |
| PhraseDict.PhraseEntrySpec | SCRIPTS/COMPRESSION/lib/build_phrase_dict.py:40-50 | the j-th kept group has entry `P<j+1>`: count = the group's n-gram count, variants = distinct spellings, original = a spelling of maximal count (the first seen among ties) that lowercases to the key |
| WordDict.GroupWords | SCRIPTS/COMPRESSION/lib/build_word_dict.py:23-26 | the counting loop puts each word in the group of its lowercase form |
| WordDict.CommonIdsDistinct | SCRIPTS/COMPRESSION/lib/build_word_dict.py:29-48 | the 39 common words have 39 pairwise distinct ids (`_thr` and `_thr2` included) |
| WordDict.CommonIdsShape | SCRIPTS/COMPRESSION/lib/build_word_dict.py:37-48 | every common id starts with `_`, so it never meets a `W:` id |
| WordDict.AddCommonWords | SCRIPTS/COMPRESSION/lib/build_word_dict.py:52-64 | the first loop assigns each common word's id in table order |
| WordDict.AddFrequentWords | SCRIPTS/COMPRESSION/lib/build_word_dict.py:66-88 | the second loop assigns the frequent words their `W:` ids in group order |
| WordDict.FrequentSpec | SCRIPTS/COMPRESSION/lib/build_word_dict.py:70-74 | a group is numbered if and only if it is not common and its count reaches the threshold |
| WordDict.ExtractWords | SCRIPTS/COMPRESSION/lib/build_word_dict.py:11-90 | the builder equals the word dictionary of the text's words; a text without words gives an empty dictionary |
| WordDict.WordRetention | SCRIPTS/COMPRESSION/lib/build_word_dict.py:67-74 | a word gets a `W:` id if and only if it is not common and its count is at least `max(min_count, 3)` |
| WordDict.WordIdsDistinct | SCRIPTS/COMPRESSION/lib/build_word_dict.py:79-80 | below 1000, different sequence numbers give different ids whatever the stems |
| WordDict.WordIdCollision | SCRIPTS/COMPRESSION/lib/build_word_dict.py:79-80 | from 1000 on, two different stems can get the same id |
| WordDict.NumberedKeysW | SCRIPTS/COMPRESSION/lib/build_word_dict.py:77-80 | every numbered id starts with `W`, however many words are numbered |
| WordDict.NumberedKeysDistinct | SCRIPTS/COMPRESSION/lib/build_word_dict.py:68-88 | with fewer than 1000 frequent words the `W:` ids are distinct |
| WordDict.CommonDict | SCRIPTS/COMPRESSION/lib/build_word_dict.py:52-64 | a common id is present if and only if its word occurs, with no threshold, and its entry describes that word's group |
| WordDict.CommonWordEntry | SCRIPTS/COMPRESSION/lib/build_word_dict.py:52-64 | a common word's id is present if and only if the word occurs; its entry has the word's count, `case_sensitive` if and only if more than one spelling, and the most frequent spelling (first among ties) |
| WordDict.FrequentWordEntry | SCRIPTS/COMPRESSION/lib/build_word_dict.py:68-88 | the j-th frequent word is stored under `W:<stem><j+1>` with its count, its case flag and its most frequent spelling |
| HacsEncode.LoadDictionary | SCRIPTS/COMPRESSION/lib/hacs_encode.py:16-24 | the loop builds the reverse map from originals (and, for case-sensitive entries, their lowercase forms) to ids |
| HacsEncode.ReverseMapSpec | SCRIPTS/COMPRESSION/lib/hacs_encode.py:16-22 | a text is a key if and only if some entry names it; its id is that of the last entry naming it |
| HacsEncode.LongestPrefix | SCRIPTS/COMPRESSION/lib/hacs_encode.py:42-49 | the result is a dictionary key that is a prefix of the rest, and no longer prefix is a key; 0 means none, so an empty original never matches |
| HacsEncode.FindEntity | SCRIPTS/COMPRESSION/lib/hacs_encode.py:41-49 | the entity loop returns the longest matching original and its id |
| HacsEncode.FindPhrase | SCRIPTS/COMPRESSION/lib/hacs_encode.py:52-77 | the phrase loop tries `min(6, words ahead)` down to 2 words and returns the first hit |
| HacsEncode.Choose | SCRIPTS/COMPRESSION/lib/hacs_encode.py:41-91 | a match covers between 1 and all of the remaining characters |
| HacsEncode.FindMatch | SCRIPTS/COMPRESSION/lib/hacs_encode.py:41-91 | a turn of the loop tries entity, then phrase, then word |
| HacsEncode.EmitMatch | SCRIPTS/COMPRESSION/lib/hacs_encode.py:93-102 | a match becomes one token that records its exact slice; the tiling advances by its length |
| HacsEncode.EmitLiteral | SCRIPTS/COMPRESSION/lib/hacs_encode.py:110-117 | an unmatched character after a non-literal starts a one-character literal at the current offset |
| HacsEncode.GrowLiteral | SCRIPTS/COMPRESSION/lib/hacs_encode.py:106-109 | an unmatched character after a literal grows its text and its length together; no two literals are adjacent |
| HacsEncode.Advance | SCRIPTS/COMPRESSION/lib/hacs_encode.py:93-117 | one turn keeps the tiling invariant and strictly increases the offset |
| HacsEncode.EncodeWith | SCRIPTS/COMPRESSION/lib/hacs_encode.py:31-119 | the tokens tile the whole text from 0, each at the previous token's end, each recording the slice it covers |
| HacsEncode.Encode | SCRIPTS/COMPRESSION/lib/hacs_encode.py:26-119 | the result is the greedy encoding of the text |
| HacsDecode.LoadDictionary | SCRIPTS/COMPRESSION/lib/hacs_decode.py:15-19 | the loop builds the forward map from ids to originals |
| HacsDecode.ForwardMapSpec | SCRIPTS/COMPRESSION/lib/hacs_decode.py:15-17 | an id is mapped if and only if an entry has it; the value is the last such entry's original |
| HacsDecode.DecodeTokens | SCRIPTS/COMPRESSION/lib/hacs_decode.py:21-58 | the joined result is the in-order concatenation of the contributions: a literal's text, else a present `original`, else the dictionary text, else an `[UNKNOWN_…]` placeholder, and never an exception |
| HacsDecode.DecodedAppend | SCRIPTS/COMPRESSION/lib/hacs_decode.py:23-58 | decoding two streams in a row is decoding them joined |
| HacsDecode.SoundContribution | SCRIPTS/COMPRESSION/lib/hacs_decode.py:28-50 | a token that records its slice contributes exactly that slice |
| HacsDecode.DecodedTiles | SCRIPTS/COMPRESSION/lib/hacs_decode.py:21-58 | tokens tiling a prefix of the text decode to that prefix |
| HacsDecode.RoundTrip | SCRIPTS/COMPRESSION/lib/hacs_decode.py:21-58 | decoding the encoder's tokens gives the text back, whatever the dictionaries hold |
| HacsDecode.EncodeDecode | SCRIPTS/COMPRESSION/lib/hacs_encode.py:26-119 | encoding and then decoding returns the input text |
| HacsDecode.OriginalsWin | SCRIPTS/COMPRESSION/lib/hacs_decode.py:33-50 | when every dictionary token carries `original`, the dictionaries do not affect the output |
| HacsBinary.U16RoundTrip | SCRIPTS/COMPRESSION/lib/hacs_to_binary.py:37-37 | a 16-bit field reads back as the number written |
| HacsBinary.U32RoundTrip | SCRIPTS/COMPRESSION/lib/hacs_to_binary.py:46-46 | a 32-bit field reads back as the number written |
| HacsBinary.Utf8Char | SCRIPTS/COMPRESSION/lib/hacs_to_binary.py:42-42 | one to four bytes, exactly one for ASCII, no zero byte except for NUL |
| HacsBinary.Utf8Length | SCRIPTS/COMPRESSION/lib/hacs_to_binary.py:57-58 | the UTF-8 byte length is at least the character count, with equality exactly for ASCII |
| HacsBinary.TypeTag | SCRIPTS/COMPRESSION/lib/hacs_to_binary.py:49-53 | a tag exists exactly for literal, entity, phrase and word tokens, and 0 means literal |
| HacsBinary.RecordSpec | SCRIPTS/COMPRESSION/lib/hacs_to_binary.py:51-72 | a token's record is written if and only if it fits (id ≤ 255 ASCII bytes, texts ≤ 65535 bytes), and then it has the computed size |
| HacsBinary.RecordsSpec | SCRIPTS/COMPRESSION/lib/hacs_to_binary.py:51-72 | all records are written if and only if every token fits, and they total the sum of the record sizes |
| HacsBinary.EncodeToBinary | SCRIPTS/COMPRESSION/lib/hacs_to_binary.py:27-72 | the write sequence produces the container's bytes or its error |
| HacsBinary.BinarySpec | SCRIPTS/COMPRESSION/lib/hacs_to_binary.py:29-72 | writing succeeds if and only if the counts fit 16 bits, the token count fits 32 bits and every token fits; the size is 12 + the three paths with their NULs + 4 + the records |
| HacsBinary.PatternUnwritable | SCRIPTS/COMPRESSION/lib/hacs_to_binary.py:49-53 | a pattern token, or any type outside the table, makes the writer fail |
| HacsBinary.HeaderFields | SCRIPTS/COMPRESSION/lib/hacs_to_binary.py:29-37 | the output starts `HACS`, version 3, flags 0, then the three counts, which read back as written |
| Patterns.ExtractTokenSequences | SCRIPTS/COMPRESSION/lib/cdis_detect_patterns.py:11-34 | the loops build the grouping of every window, length by length and start by start |
| Patterns.WindowKeys | SCRIPTS/COMPRESSION/lib/cdis_detect_patterns.py:21-31 | the inner loop builds a window's keys: `('L', text)` for literals, else the type's capital letter and the id |
| Patterns.SequencesSpec | SCRIPTS/COMPRESSION/lib/cdis_detect_patterns.py:18-32 | a key tuple is recorded if and only if its length is in range and it occurs; its value is the list of all starts where it occurs |
| Patterns.StartsSpec | SCRIPTS/COMPRESSION/lib/cdis_detect_patterns.py:18-32 | a start is listed exactly when the window there has the key; the list is strictly increasing |
| Patterns.CalculateSavings | SCRIPTS/COMPRESSION/lib/cdis_detect_patterns.py:36-58 | the accumulator loop computes the savings formula |
| Patterns.SavingsSpec | SCRIPTS/COMPRESSION/lib/cdis_detect_patterns.py:36-58 | savings = (k−1)·(S−6) − 16 for k occurrences of size S: one occurrence loses 16, each further one gains S−6 |
| Patterns.SelectBestPatterns | SCRIPTS/COMPRESSION/lib/cdis_detect_patterns.py:60-86 | the loop and the sort give the selected candidates |
| Patterns.SelectedSpec | SCRIPTS/COMPRESSION/lib/cdis_detect_patterns.py:66-86 | at most `max_patterns`, in non-increasing savings, each a recorded sequence with ≥ 2 occurrences and savings ≥ `min_savings` |
| Patterns.SelectedBest | SCRIPTS/COMPRESSION/lib/cdis_detect_patterns.py:82-86 | a qualifying candidate left out only loses to a full list of candidates with savings at least its own |
| Patterns.BuildPatternDictionary | SCRIPTS/COMPRESSION/lib/cdis_detect_patterns.py:88-104 | the numbering loop builds the pattern dictionary |
| Patterns.PatternIdsDistinct | SCRIPTS/COMPRESSION/lib/cdis_detect_patterns.py:95-96 | the `C####` ids never repeat |
| Patterns.PatternDictionarySpec | SCRIPTS/COMPRESSION/lib/cdis_detect_patterns.py:88-104 | the i-th selected pattern is stored as `C<i+1>` in that order, with its sequence, count, length and savings |
| Substitution.MatchAt | SCRIPTS/COMPRESSION/lib/cdis_detect_patterns.py:134-148 | the inner loop tells whether the tokens at `i` have the pattern's keys |
| Substitution.FindPattern | SCRIPTS/COMPRESSION/lib/cdis_detect_patterns.py:125-166 | the loop over the sorted patterns finds the first one that matches |
| Substitution.FirstMatch | SCRIPTS/COMPRESSION/lib/cdis_detect_patterns.py:125-166 | the chosen pattern matches, and none tried before it does; no result means none matches |
| Substitution.SubstitutePatterns | SCRIPTS/COMPRESSION/lib/cdis_detect_patterns.py:106-173 | the `while` loop gives the rewritten stream and the occurrence counter |
| Substitution.OrderedSpec | SCRIPTS/COMPRESSION/lib/cdis_detect_patterns.py:125-129 | patterns are tried by non-increasing length, a permutation of the dictionary that keeps equal lengths in dictionary order |
| Substitution.LongestFirst | SCRIPTS/COMPRESSION/lib/cdis_detect_patterns.py:125-166 | no pattern that matches at the same index is longer than the chosen one |
| Substitution.MatchedKeys | SCRIPTS/COMPRESSION/lib/cdis_detect_patterns.py:134-150 | a match means the covered tokens' keys are the pattern's sequence |
| Substitution.ExpandSubstituted | SCRIPTS/COMPRESSION/lib/cdis_detect_patterns.py:106-173 | replacing every pattern token by its sequence gives back the input's key sequence |
| Substitution.RestoreSubstituted | SCRIPTS/COMPRESSION/lib/cdis_detect_patterns.py:134-171 | replacing every pattern token by the input tokens it covers gives the input back: each token is copied once or covered once, in order, without overlap |
| Substitution.ChosenArePatternTokens | SCRIPTS/COMPRESSION/lib/cdis_detect_patterns.py:150-158 | the ids counted are exactly the ids of the emitted pattern tokens, in order |
| Substitution.TallySpec | SCRIPTS/COMPRESSION/lib/cdis_detect_patterns.py:114-158 | the counter holds exactly the ids seen, each with its number of occurrences |
| Substitution.OccurrencesSpec | SCRIPTS/COMPRESSION/lib/cdis_detect_patterns.py:114-158 | `pattern_occurrences[c]` is the number of emitted pattern tokens with id `c` |
| Huffman.MinIndex | SCRIPTS/COMPRESSION/lib/cdis_entropy_encode_v2.py:60-62 | the popped node has the least (frequency, push number) in the queue |
| Huffman.BuildTree | SCRIPTS/COMPRESSION/lib/cdis_entropy_encode_v2.py:56-66 | the push loop and the merge loop build the Huffman tree of the items |
| Huffman.MergeStepKeeps | SCRIPTS/COMPRESSION/lib/cdis_entropy_encode_v2.py:60-64 | a merge keeps the multiset of queued leaves and their total weight |
| Huffman.MergeStepWeighted | SCRIPTS/COMPRESSION/lib/cdis_entropy_encode_v2.py:63-64 | a merge builds only nodes whose frequency is the sum of their children's |
| Huffman.HuffmanTreeSpec | SCRIPTS/COMPRESSION/lib/cdis_entropy_encode_v2.py:49-66 | the tree's leaves are the symbols, each once; its root frequency is the sum of the frequencies; every node weighs the sum of its children |
| Huffman.GenerateCodesSpec | SCRIPTS/COMPRESSION/lib/cdis_entropy_encode_v2.py:68-85 | the accumulating recursion assigns each leaf's root-to-leaf path in leaf order |
| Huffman.PathsShape | SCRIPTS/COMPRESSION/lib/cdis_entropy_encode_v2.py:77-84 | paths name each leaf once, are non-empty (a lone leaf gets `0`), and extend the path to their subtree |
| Huffman.PathsPrefixFree | SCRIPTS/COMPRESSION/lib/cdis_entropy_encode_v2.py:68-85 | no code is a prefix of another |
| Huffman.CodeTableSpec | SCRIPTS/COMPRESSION/lib/cdis_entropy_encode_v2.py:68-85 | every leaf symbol gets exactly one non-empty code, its path; the codes are prefix-free |
| BitPacking.BitsToBytes | SCRIPTS/COMPRESSION/lib/cdis_entropy_encode_v2.py:95-107 | the loop packs the zero-padded bits into bytes and returns the padding |
| BitPacking.Padding | SCRIPTS/COMPRESSION/lib/cdis_entropy_encode_v2.py:100-101 | the padding is 0..7 and makes the length a multiple of 8 |
| BitPacking.ValueBitsOf | SCRIPTS/COMPRESSION/lib/cdis_entropy_encode_v2.py:103-105 | a byte written as eight bits reads back as the same number |
| BitPacking.BitsOfValue | SCRIPTS/COMPRESSION/lib/cdis_entropy_decode.py:18-18 | bits read as a number and written back MSB first are the same bits |
| BitPacking.UnpackPack | SCRIPTS/COMPRESSION/lib/cdis_entropy_decode.py:16-22 | unpacking the packed bytes gives the bits, 8 per byte, MSB first |
| BitPacking.PackRoundTrip | SCRIPTS/COMPRESSION/lib/cdis_entropy_decode.py:16-22 | `bytes_to_bits` after `bits_to_bytes` drops exactly the padding and gives the bits back, using ⌈n/8⌉ bytes |
| BitPacking.BytesToHex | SCRIPTS/COMPRESSION/lib/cdis_entropy_encode_v2.py:109-111 | two characters per byte |
| BitPacking.HexRoundTrip | SCRIPTS/COMPRESSION/lib/cdis_entropy_decode.py:12-14 | `hex_to_bytes` inverts `bytes_to_hex`, whose digits are lowercase hex |
| EntropyV2.TokenKeysSpec | SCRIPTS/COMPRESSION/lib/cdis_entropy_encode_v2.py:24-42 | keys are computed if and only if no token has an unknown type, one key per token; otherwise the first unknown type is reported |
| EntropyV2.FrequencyTableSpec | SCRIPTS/COMPRESSION/lib/cdis_entropy_encode_v2.py:44-47 | the counter holds exactly the keys, in first-seen order, each with its positive count; the counts sum to the number of tokens |
| EntropyV2.BuildHuffmanTree | SCRIPTS/COMPRESSION/lib/cdis_entropy_encode_v2.py:49-66 | the builder gives the tree of the table, and fails on an empty table |
| EntropyV2.TreeOfIsHuffman | SCRIPTS/COMPRESSION/lib/cdis_entropy_encode_v2.py:49-66 | a non-empty table gives the merge loop's tree, the one-symbol shortcut included |
| EntropyV2.SingleSymbolCode | SCRIPTS/COMPRESSION/lib/cdis_entropy_encode_v2.py:51-54 | one distinct key is coded `0` |
| EntropyV2.EncodeTokens | SCRIPTS/COMPRESSION/lib/cdis_entropy_encode_v2.py:87-93 | the loop gives the bit string of the stream, or the key error |
| EntropyV2.EncodingErr | SCRIPTS/COMPRESSION/lib/cdis_entropy_encode_v2.py:87-93 | once a prefix of the stream fails, the whole stream fails with the same error |
| EntropyV2.EncodingConcat | SCRIPTS/COMPRESSION/lib/cdis_entropy_encode_v2.py:87-93 | with every key coded, the bit string is the keys' codes in token order |
| EntropyV2.ConcatLength | SCRIPTS/COMPRESSION/lib/cdis_entropy_encode_v2.py:165-165 | the bit string's length is Σ freq·len(code) |
| EntropyV2.CompressTokens | SCRIPTS/COMPRESSION/lib/cdis_entropy_encode_v2.py:130-154 | steps 1 to 5 of the encoder and the hex conversion |
| EntropyV2.CodesOfTree | SCRIPTS/COMPRESSION/lib/cdis_entropy_encode_v2.py:68-85 | the table lists the tree's leaves, each with a non-empty code, and is prefix-free |
| EntropyV2.CompressSpec | SCRIPTS/COMPRESSION/lib/cdis_entropy_encode_v2.py:130-154 | for encodable tokens, the encoder succeeds if and only if the stream is non-empty |
| EntropyV2.CompressEmpty | SCRIPTS/COMPRESSION/lib/cdis_entropy_encode_v2.py:56-66 | an empty stream leaves the queue empty and the encoder fails |
| EntropyV2.CompressOk | SCRIPTS/COMPRESSION/lib/cdis_entropy_encode_v2.py:130-154 | the output codes are the Huffman table of the counted keys, the bits are the keys' codes in order, and the bytes are the padded bits packed |
| EntropyV2.CompressTable | SCRIPTS/COMPRESSION/lib/cdis_entropy_encode_v2.py:130-138 | the table codes exactly the stream's keys, each with a non-empty code, prefix-free |
| EntropyV2.CompressBits | SCRIPTS/COMPRESSION/lib/cdis_entropy_encode_v2.py:147-165 | the bit count is Σ freq·len(code); the padding is 0..7 and completes a byte; unpacking gives the bits back in ⌈n/8⌉ bytes |
| EntropyDecode.InsertReaches | SCRIPTS/COMPRESSION/lib/cdis_entropy_decode.py:33-45 | after inserting a code, its path leads to a leaf holding the symbol |
| EntropyDecode.InsertElsewhere | SCRIPTS/COMPRESSION/lib/cdis_entropy_decode.py:33-45 | inserting a code leaves every path that is neither its prefix nor its extension unchanged |
| EntropyDecode.BuildDecodingTree | SCRIPTS/COMPRESSION/lib/cdis_entropy_decode.py:24-47 | the loop over the table builds its trie, or fails on an empty code |
| EntropyDecode.BuildSpec | SCRIPTS/COMPRESSION/lib/cdis_entropy_decode.py:24-47 | for prefix-free non-empty codes, building succeeds and every code reaches its own symbol, and no other path holds one |
| EntropyDecode.BuildEmptyCode | SCRIPTS/COMPRESSION/lib/cdis_entropy_decode.py:39-45 | a table with an empty code cannot be built |
| EntropyDecode.DecodeHuffman | SCRIPTS/COMPRESSION/lib/cdis_entropy_decode.py:49-69 | the loop walks the trie bit by bit, emits a symbol at each leaf and restarts at the root; a missing child or an end away from the root is an error |
| EntropyDecode.DecodeConcat | SCRIPTS/COMPRESSION/lib/cdis_entropy_decode.py:49-69 | the concatenated codes of some keys decode to those keys, whatever follows |
| EntropyDecode.DecodeSound | SCRIPTS/COMPRESSION/lib/cdis_entropy_decode.py:49-69 | whatever a successful decode emits is made of coded keys whose codes concatenate to the input |
| EntropyDecode.DecodeEncoded | SCRIPTS/COMPRESSION/lib/cdis_entropy_decode.py:49-69 | decoding the concatenated codes of coded keys gives the keys |
| EntropyDecode.DecodeDecoded | SCRIPTS/COMPRESSION/lib/cdis_entropy_decode.py:49-69 | a successful decode's keys encode back to the input bits |
| EntropyDecode.DecodeIff | SCRIPTS/COMPRESSION/lib/cdis_entropy_decode.py:49-69 | the bits decode to some keys if and only if they are exactly those keys' codes concatenated |
| EntropyDecode.StoredTable | SCRIPTS/COMPRESSION/lib/cdis_entropy_encode_v2.py:68-85 | the encoder's stored table lists each key once, with prefix-free non-empty codes |
| EntropyDecode.StreamRoundTrip | SCRIPTS/COMPRESSION/lib/cdis_entropy_decode.py:249-259 | decoding the encoder's hex output with its stored table, bit count and padding gives the token keys back |
| EntropyDecode.ReconstructTokenObjects | SCRIPTS/COMPRESSION/lib/cdis_entropy_decode.py:71-195 | the loop with its offset accumulator and nested pattern expansion gives the reconstructed tokens or the first error |
| EntropyDecode.ReconstructKeys | SCRIPTS/COMPRESSION/lib/cdis_entropy_decode.py:84-188 | the three-part keys of literal and dictionary tokens reconstruct those tokens, each at the sum of the lengths before it |
| EntropyDecode.ReconstructSeqKeys | SCRIPTS/COMPRESSION/lib/cdis_entropy_decode.py:90-106 | two-part keys reconstruct the tokens with the dictionary's spelling, since they carry no `original` |
| EntropyDecode.ExpandPattern | SCRIPTS/COMPRESSION/lib/cdis_entropy_decode.py:119-137 | a pattern key expands to its stored tokens in dictionary spelling, at offsets restarting from 0 |
| EntropyDecode.PatternKeepsPosition | SCRIPTS/COMPRESSION/lib/cdis_entropy_decode.py:119-137 | for any pattern stored from literal and dictionary tokens, the keys after it are rebuilt from the pattern key's own offset, and the expansion from offset 0 |
| EntropyDecode.PositionAfterPattern | SCRIPTS/COMPRESSION/lib/cdis_entropy_decode.py:131-137 | after a pattern whose text is `ab`, the next literal is placed at the pattern's own offset, not 2 past it |
| EntropyDecode.KeyFaults | SCRIPTS/COMPRESSION/lib/cdis_entropy_decode.py:105-191 | a malformed key, a dictionary id missing from its dictionary (even with an `original`) and an unknown type code each fail with their own error |
| EntropyDecode.EndToEnd | SCRIPTS/COMPRESSION/lib/cdis_entropy_decode.py:228-268 | hex output, then decoding, then reconstruction gives the literal and dictionary tokens back, with offsets from 0 |
| EntropyV1.BuildFrequencyTable | SCRIPTS/COMPRESSION/lib/cdis_entropy_encode.py:23-39 | the nested counting loops count the stream's symbols: each literal character as `('L', c)`, every other token as its letter and id |
| EntropyV1.SymbolsOf | SCRIPTS/COMPRESSION/lib/cdis_entropy_encode.py:28-37 | a symbol is counted if and only if some token yields it |
| EntropyV1.FrequencyTableSpec | SCRIPTS/COMPRESSION/lib/cdis_entropy_encode.py:23-39 | the counter holds exactly the symbols, in first-seen order, each with its positive count; the counts sum to the number of characters and non-literal tokens |
| EntropyV1.BuildHuffmanTree | SCRIPTS/COMPRESSION/lib/cdis_entropy_encode.py:41-63 | the heap loop gives the table's tree, or none for an empty table |
| EntropyV1.NoSymbols | SCRIPTS/COMPRESSION/lib/cdis_entropy_encode.py:63-71 | a stream without symbols gives no tree and an empty code table |
| EntropyV1.CodesSpec | SCRIPTS/COMPRESSION/lib/cdis_entropy_encode.py:65-85 | every symbol of the stream, and nothing else, gets a non-empty code; the codes are prefix-free |
| EntropyV1.SingleSymbol | SCRIPTS/COMPRESSION/lib/cdis_entropy_encode.py:75-78 | a stream with one distinct symbol codes it as `0` |
| EntropyV1.EncodeWithHuffman | SCRIPTS/COMPRESSION/lib/cdis_entropy_encode.py:87-115 | the outer loop appends each token's bits |
| EntropyV1.EncodeText | SCRIPTS/COMPRESSION/lib/cdis_entropy_encode.py:96-105 | the inner loop appends each character's code or escape |
| EntropyV1.FormatSpec | SCRIPTS/COMPRESSION/lib/cdis_entropy_encode.py:105-105 | `format(n, '08b')` reads back as `n`, has at least 8 digits, and exactly 8 if and only if `n < 256` |
| EntropyV1.EscapedChar | SCRIPTS/COMPRESSION/lib/cdis_entropy_encode.py:98-105 | an uncoded character is written as `11111111` and then its code point in binary, 16 bits if and only if the code point is below 256 |
| EntropyV1.EscapedToken | SCRIPTS/COMPRESSION/lib/cdis_entropy_encode.py:106-113 | an uncoded non-literal token is written as the escape alone |
| EntropyV1.NoEscape | SCRIPTS/COMPRESSION/lib/cdis_entropy_encode.py:87-115 | with every symbol coded, the bits are the symbols' codes in order and no escape is written |
| EntropyV1.OwnCodes | SCRIPTS/COMPRESSION/lib/cdis_entropy_encode.py:179-197 | with the codes built from the same tokens, as `main` does, no escape is written |
| EntropyV1.OwnCodesDecode | SCRIPTS/COMPRESSION/lib/cdis_entropy_encode.py:179-197 | those bits are read back into the stream's symbols by a code trie walk |
| EntropyV1.CompressTokens | SCRIPTS/COMPRESSION/lib/cdis_entropy_encode.py:178-205 | steps 1 to 6 of `main` |
| EntropyV1.CompressFails | SCRIPTS/COMPRESSION/lib/cdis_entropy_encode.py:139-143 | the encoder fails if and only if the stream has no symbols, and then with a division by zero |
| EntropyV1.CompressValue | SCRIPTS/COMPRESSION/lib/cdis_entropy_encode.py:178-205 | each output field: the counter, the table, the bits, the padding, the packed bytes, the hex, and the integer statistics |
| EntropyV1.TotalBitsExact | SCRIPTS/COMPRESSION/lib/cdis_entropy_encode.py:146-149 | Σ freq·len(code) is the real length of the encoded bits |
| EntropyV1.StatsExact | SCRIPTS/COMPRESSION/lib/cdis_entropy_encode.py:146-150 | `compressed_bits` is the bit count and `compressed_bytes` is the byte count |
| EntropyV1.StoredBits | SCRIPTS/COMPRESSION/lib/cdis_entropy_encode.py:117-132 | the padding is 0..7 and completes a byte; the bytes unpack to the bits and the hex reads back as the bytes |
| Grouping.CountedSpec | SCRIPTS/COMPRESSION/lib/cdis_entropy_encode_v2.py:47-47 | a `Counter` holds each key in first-seen order with its number of occurrences |
| Grouping.MostCommonSpec | SCRIPTS/COMPRESSION/lib/build_phrase_dict.py:40-42 | `most_common(1)` is an element of maximal count, the first seen among ties |
| Sorting.SortDescSpec | SCRIPTS/COMPRESSION/lib/cdis_detect_patterns.py:83-83 | the sort by decreasing key is sorted, a permutation, and stable |
| Decimal.NumberedIdInjective | SCRIPTS/COMPRESSION/lib/cdis_detect_patterns.py:96-96 | a prefix and a zero-padded number give equal ids if and only if the numbers are equal |

## Left out

- Regular expressions are not modelled in general.
  - `\b\w+\b` is modelled as maximal runs of ASCII word characters (`Scan.WordsIn`).
  - The phrase check `\b<words joined by \s+>\b` is modelled as ASCII, case-insensitive.
  - The entity patterns (dates, emails, URLs, IPs) are parameters: the lists of matches, with the shape each pattern guarantees.
  - Unicode `\w`, `\s` and case folding beyond ASCII letters are not modelled.
- Iteration over `set(matches)` in the entity builder has no defined order. The model picks the next match by `:|`, so which of two same-id values wins is unspecified there too.
- Floats are not modelled:
  - the dictionaries' `frequency` fields of phrases and words;
  - every compression ratio and `round(...)`;
  - `avg_code_length`.
  The threshold is the integer `min_count = int(total × threshold)`, given directly.
- `heapq` tie order is pinned to (frequency, push number). `HuffmanNode.__lt__` compares frequency only, so the source leaves ties to the heap. Prefix-freeness and the round trips hold for any tie order.
- The `struct` fields of the binary container use native byte order. The model fixes it as little-endian.
- File I/O, JSON parsing and printing are not modelled:
  - every `main()` and `__main__` block, argument parsing and stderr output;
  - `load_hacs_dictionaries`;
  - `str(tuple)` keys and their `eval`.
  Keys are the `Key` datatype. A tuple of any length other than two or three is `Key.Malformed`.
- The decoder's nested dictionaries are modelled as a trie value that each insertion returns anew. The dictionaries are not shared, so this changes nothing observable.
- The interpreter's recursion limit on pattern expansion is the `fuel` parameter of `EntropyDecode.Reconstruct`, which fails with `RecursionLimit` when it runs out.
- `EntropyDecode.ReconstructSeqKeys`: stated only for streams whose phrase ids do not start with `C`. Such an id is read back as a pattern key, as the source does.
- `EntropyDecode.StreamRoundTrip`: the stored `compressed_bits` is passed on but ignored, as `bytes_to_bits` ignores it.
- The character-level encoder has no decoder in the source. The model proves the escape shape and that `main`'s own table never needs the escape. It does not attempt to read escapes back.
