# Tokenomicon tokenizers in Dafny

This project models the two tokenizers at the core of Tokenomicon and proves
properties of them.

- **`ByteLevelBPE`** (`byte_level_bpe.dfy`, module `ByteLevelBpe`) is a
  trainable byte-level Byte-Pair-Encoding codec. Training starts from the
  one-byte tokens of a text and registers every byte not yet in the vocabulary
  under a fresh id; a known byte keeps its id. It then
  repeatedly merges a most frequent adjacent pair into a new token, giving that
  token the next id and recording the merge rule. `encode` replays the merge
  rules in training order and maps each token to its id, with id 0 for
  `<unk>`. `decode` concatenates the byte strings of the ids.
  - The codec is a class with the three fields the source updates: `vocab`,
    `merges` and `reverseVocab`. Its object invariant `Valid` says the two maps
    are inverse, `0 ↦ <unk>` is present, and every merge rule yields a known token.
  - The helper loops of the source are methods proved against specification
    functions:
    - byte registration (`RegisterBytes`);
    - pair counting (`CountPairs` against `PairCount`);
    - max-count selection (`SelectMaxPair`);
    - the train rewrite (`MergePair` against `MergeAll`);
    - the in-place splice of `encode` (`SpliceMerges`, also against `MergeAll`);
    - decoding (`Decode` against `DecodeBytes`).
- **`StandardBPE`** (`standard_bpe.dfy`, module `StandardBpe`) is a greedy
  longest-match segmenter over a vocabulary of `isize` scores.
  - `tokenize_word` is a recursive function. For the top-level `tokenize` it is
    proved that:
    - every text maps to sentence token lists framed by `<s>` and `</s>`;
    - each word contributes at least one token;
    - the three selection rules (longest hit, then highest score, then largest
      start) fix the split uniquely;
    - a word that is a key is one token;
    - a word with no hit is exactly `<unk>`;
    - when every character is a key, the tokens spell the word.
  - The line loop of `load_vocab_from_file` is the method
    `StandardBPE.LoadVocabFromLines`, proved against the function `LoadLines`.
    Lemmas about loading say:
    - short lines are skipped;
    - a bad score stops loading with `InvalidData`, keeping earlier entries;
    - the last insertion of a token wins;
    - untouched tokens keep their entries.
- `rust_str.dfy` (module `RustStr`) models the two standard-library operations
  the loader depends on:
  - `split_whitespace`, with the Unicode White_Space characters;
  - `parse::<isize>`: an optional sign, one or more ASCII digits, and the
    64-bit range.
  
  Each has a partner lemma: splitting spells exactly the non-whitespace
  characters and inverts joining by spaces; parsing inverts decimal formatting.
- `seqs.dfy` holds `Option` (module `Wrappers`) and `Concat` (module `Seqs`),
  Rust's `concat`/`flatten` on sequences.

### Where the code and its description differ

The model follows the code in each case.

- **Vocabulary size after training.** The loop guard is `vocab.len() <=
  vocab_size` (src/service/byte_level_bpe.rs:55). So after the bytes are
  registered, one more merge can run when the size equals the target. Byte
  registration (src/service/byte_level_bpe.rs:45-53) comes before the guard and
  is not limited by it. When the registered bytes do not already pass the
  target, the final size is at most `vocab_size + 1`, not at most `vocab_size`.
  Otherwise no merge runs, and the size is the number of registered tokens.
  Both cases are proved as part of `TrainedFrom`.
- **Short vocabulary lines.** A line with fewer than two fields is skipped
  silently (src/service/standard_bpe.rs:85); it is not a data-format error.
  Only an unparseable score is an error (`LoadSkipsShortLine`,
  `LoadStopsAtBadScore`).
- **A merged token that is already known.** The round is skipped with
  `continue` (src/service/byte_level_bpe.rs:66-68), and the token list,
  vocabulary and merges stay unchanged. Unless hash order then selects another
  pair of equal count, the same pair is selected again and the loop does not
  end. One way to reach this: train twice on `"abab"` with `vocab_size` 10. The
  second call keeps re-selecting `(a, b)`, whose token `ab` is already known.
  The model bounds the rounds by a `fuel` argument. `terminated` is true when
  the source's loop has ended within `fuel` rounds, and `TrainedFrom` then gives
  its exit condition. `false` only means the fuel ran out in a state where the
  source's loop goes on, whether or not it would end later. `TrainAbabLearnsAb`
  proves that the first call learns `ab` within the target, and
  `RetrainAbabStalls` that the second call records nothing and never reports
  an end, for any `fuel`.

The API layers around the tokenizers are not part of this model (see "Left out").

## Model

| member | source | states |
|---|---|---|
| ByteLevelBpe.ByteLevelBPE.constructor | src/service/byte_level_bpe.rs:15-29 | the vocabulary is exactly `<unk> ↦ 0`, the reverse map exactly `0 ↦ <unk>`, there are no merges, and the object invariant holds |
| ByteLevelBpe.ByteLevelBPE.Vocab | src/service/byte_level_bpe.rs:32-34 | the returned map contains `<unk> ↦ 0` and agrees with the reverse vocabulary on every entry |
| ByteLevelBpe.ByteLevelBPE.Train | src/service/byte_level_bpe.rs:37-97 | it keeps the object invariant. `TrainedFrom` relates old and new state: old entries are kept; merges are only appended; new ids run consecutively from one above the old maximum; every byte of the text becomes a token; each new merge makes a token that was not there before, with a larger id than earlier merges and than every byte and old token, and was a most frequent pair of its round; the size is bytes registered plus merges recorded, and at most `vocab_size + 1` whenever registration did not pass the target or any merge was recorded (so no merge is recorded once registration passes it); the final token list spells the text and is the replay of the new merges; `terminated` holds exactly when the state reached meets the loop's exit condition (over the target, or fewer than two tokens); every key is an old key, a byte of the text or a new merge's token; the ghost `rounds` is at most `fuel`, equals `fuel` unless the loop ended, and is at least the number of merges recorded; when the loop goes on and fewer merges than rounds were recorded, some round chose a most frequent pair whose token was already known (`SkippedRound`) |
| ByteLevelBpe.TrainMaps | src/service/byte_level_bpe.rs:38-96 | the body of `train` on map values: the same `TrainedFrom` relation, round count and skipped-round guarantee, and the inverse-map, `<unk>` and known-merge invariants are preserved |
| ByteLevelBpe.StartTraining | src/service/byte_level_bpe.rs:38-53 | the first new id is one above the largest existing id; after registration the keys are the old keys plus the distinct bytes; the merge loop's invariant holds for the one-byte token list |
| ByteLevelBpe.MaxId | src/service/byte_level_bpe.rs:43 | the largest element of the id set, or 0 when the set is empty |
| ByteLevelBpe.RegisterBytes | src/service/byte_level_bpe.rs:45-53 | the keys become the old keys plus the distinct bytes; old entries keep their ids; the new ids are exactly `firstId .. nextId-1`; the maps stay inverse |
| ByteLevelBpe.RegisteredStart | src/service/byte_level_bpe.rs:39-55 | once the bytes are registered, the loop invariant holds for the one-byte token list and no new merges |
| ByteLevelBpe.MergeRounds | src/service/byte_level_bpe.rs:55-93 | the training loop keeps its invariant (ids, growth, known and greedy merges, registered ids below merge ids, and the token list as the replay of the new merges); it reports termination exactly when the vocabulary is over the target or fewer than two tokens remain; otherwise all `fuel` rounds ran; at most one merge was recorded per round; when the loop goes on and fewer merges than rounds were recorded, some round chose a most frequent pair whose token was already known (`SkippedRound`) |
| ByteLevelBpe.CountPairs | src/service/byte_level_bpe.rs:56-61 | a pair is a key exactly when it occurs as an adjacent window, and its count is the number of such windows |
| ByteLevelBpe.PairCountOccurs | src/service/byte_level_bpe.rs:58-61 | a pair's window count is positive if and only if the pair occurs at some position |
| ByteLevelBpe.SelectMaxPair | src/service/byte_level_bpe.rs:63 | no pair exactly when the count map is empty; otherwise a key whose count no other key exceeds (any of the maximal ones, as hash order decides) |
| ByteLevelBpe.NoPairLeft | src/service/byte_level_bpe.rs:90-92 | when no pair has a positive count, the list has fewer than two tokens |
| ByteLevelBpe.RecordMerge | src/service/byte_level_bpe.rs:64-89 | recording a new, most frequent, occurring pair keeps the loop invariant: insert the token under the next id, append the merge, rewrite the list |
| ByteLevelBpe.RecordIds | src/service/byte_level_bpe.rs:72-74 | inserting a new token under the next id keeps the maps inverse and the ids a consecutive range |
| ByteLevelBpe.RecordGrowth | src/service/byte_level_bpe.rs:55-72 | one new entry per appended merge, and, since a merge is recorded only while the size is within the target, the size is then at most `vocab_size + 1` |
| ByteLevelBpe.RecordMergeInv | src/service/byte_level_bpe.rs:70-74 | the appended merge's token is new and gets an id above those of earlier merges |
| ByteLevelBpe.RecordGreedy | src/service/byte_level_bpe.rs:63-70 | appending a most frequent pair of the current list keeps every new merge greedy |
| ByteLevelBpe.RecordKeys | src/service/byte_level_bpe.rs:72-73 | after inserting the merged token, every key is still a registered token or a new merge's token |
| ByteLevelBpe.SkipRound | src/service/byte_level_bpe.rs:63-68 | a round whose chosen most frequent pair has a known merged token is a skipped round (`SkippedRound`); `MergeRounds` then continues with the state unchanged |
| ByteLevelBpe.RecordOrder | src/service/byte_level_bpe.rs:45-74 | the token of an appended merge gets an id above every registered byte, which got theirs before the loop |
| ByteLevelBpe.RecordTokens | src/service/byte_level_bpe.rs:76-89 | the rewritten list still spells the text, uses only known tokens, and is the replay of the new merges |
| ByteLevelBpe.TrainFinal | src/service/byte_level_bpe.rs:90-96 | when the loop stops, its invariant gives the `TrainedFrom` relation |
| ByteLevelBpe.MergePair | src/service/byte_level_bpe.rs:76-89 | the rewrite loop returns the left-to-right, non-overlapping replacement of the pair by its merged token |
| ByteLevelBpe.MergeAllPreservesBytes | src/service/byte_level_bpe.rs:76-89 | the rewrite does not change the bytes the tokens spell |
| ByteLevelBpe.MergeAllLength | src/service/byte_level_bpe.rs:76-89 | the rewrite never lengthens the list, and shortens it whenever the pair occurs |
| ByteLevelBpe.MergeAllKnown | src/service/byte_level_bpe.rs:72-89 | when the merged token is known, the rewrite yields only known tokens |
| ByteLevelBpe.SingleBytes | src/service/byte_level_bpe.rs:39 | one token per byte, and the tokens spell the bytes |
| ByteLevelBpe.ByteLevelBPE.Encode | src/service/byte_level_bpe.rs:100-122 | the ids are the vocabulary ids (0 for unknown) of the tokens from replaying every merge in order; at most one id per byte; every id is in the reverse vocabulary; an empty text gives no ids |
| ByteLevelBpe.SpliceMerges | src/service/byte_level_bpe.rs:104-116 | the in-place splice loop with its step back computes the same rewrite as training, since merge parts are non-empty |
| ByteLevelBpe.SpliceStep | src/service/byte_level_bpe.rs:108-111 | splicing the merged token in at a match and stepping back one position keeps the splice loop's invariant |
| ByteLevelBpe.ReplayAppend | src/service/byte_level_bpe.rs:104-116 | replaying one more merge rule is one more rewrite |
| ByteLevelBpe.ReplayProperties | src/service/byte_level_bpe.rs:102-116 | merge replay keeps the bytes spelled and never lengthens the list |
| ByteLevelBpe.ReplayKnown | src/service/byte_level_bpe.rs:104-116 | replaying known merges on known tokens yields known tokens |
| ByteLevelBpe.EncodeEmpty | src/service/byte_level_bpe.rs:100-121 | the empty text encodes to no ids |
| ByteLevelBpe.EncodeLength | src/service/byte_level_bpe.rs:100-121 | there are never more ids than bytes |
| ByteLevelBpe.EncodeIdsMapped | src/service/byte_level_bpe.rs:118-121 | each id is its token's vocabulary id, or 0 when the token is unknown, and every id has a byte string |
| ByteLevelBpe.ByteLevelBPE.Decode | src/service/byte_level_bpe.rs:125-136 | the bytes are the concatenated byte strings of the ids, with `<unk>` bytes for unmapped ids |
| ByteLevelBpe.DecodeIdsOf | src/service/byte_level_bpe.rs:125-134 | decoding the ids of known tokens gives back the tokens' concatenated bytes |
| ByteLevelBpe.RoundTripWhenKnown | src/service/byte_level_bpe.rs:100-136 | decode(encode(text)) is the text whenever every token left after merge replay is known |
| ByteLevelBpe.RoundTrip | src/service/byte_level_bpe.rs:100-136 | decode(encode(text)) is the text whenever every byte of the text is known, for example after training on it |
| ByteLevelBpe.GreedyShortens | src/service/byte_level_bpe.rs:63-89 | each greedy merge rewrites an occurring pair, so after `k` merges the token list is at least `k` shorter than the text |
| ByteLevelBpe.TrainedMergeBound | src/service/byte_level_bpe.rs:55-93 | one call of `train` records at most the text's length less the final token count of merges, so fewer merges than bytes for a non-empty text |
| ByteLevelBpe.AbabMostFrequent | src/service/byte_level_bpe.rs:56-63 | in the one-byte tokens of "abab", `(a, b)` is the only pair of maximal count |
| ByteLevelBpe.AbabFirstMerge | src/service/byte_level_bpe.rs:39-74 | from any state, the first merge a call of `train` on "abab" records is `(a, b)`, producing `ab` |
| ByteLevelBpe.TrainAbabLearnsAb | src/service/byte_level_bpe.rs:37-97 | a new codec trained on "abab" to the target 10, until the loop ends, knows `a`, `b` and `ab` and has at most 10 entries |
| ByteLevelBpe.TrainEmptyEnds | src/service/byte_level_bpe.rs:39-92 | training on the empty text records no merge and always reports that the loop ended, whatever the fuel |
| ByteLevelBpe.RetrainAbabStalls | src/service/byte_level_bpe.rs:55-68 | training on "abab" again with `a`, `b` and `ab` known and the size within the target records nothing, changes nothing and never reports that the loop ended |
| RustStr.SplitWhitespace | src/service/standard_bpe.rs:83 | every field is non-empty and contains no whitespace |
| RustStr.RunLength | src/service/standard_bpe.rs:83 | the leading non-whitespace run ends at the first whitespace character or at the end |
| RustStr.SplitWhitespaceSpells | src/service/standard_bpe.rs:83 | the fields concatenated are exactly the line's non-whitespace characters in order |
| RustStr.SplitJoin | src/service/standard_bpe.rs:83 | splitting fields joined by single spaces gives the fields back |
| RustStr.ParseIsize | src/service/standard_bpe.rs:87 | a parsed value lies within the 64-bit `isize` range |
| RustStr.ParseFormat | src/service/standard_bpe.rs:87 | the decimal text of every `isize`, with a `-` or an optional `+`, parses back to it |
| RustStr.ParseRejects | src/service/standard_bpe.rs:87-89 | the empty string, a lone sign, a first character that is neither a sign nor a digit, and a non-digit after the first character all fail to parse |
| StandardBpe.StandardBPE.constructor | src/service/standard_bpe.rs:20-22 | the vocabulary is empty |
| StandardBpe.StandardBPE.Tokenize | src/service/standard_bpe.rs:25-27 | a non-empty result starts with `<s>` and ends with `</s>`; the result is empty exactly when the text has no sentences |
| StandardBpe.TokenizeTextShape | src/service/standard_bpe.rs:25-44 | the flattened sentence lists of `SentenceLists` (the model of `split_into_sentences`) are empty exactly when there is no sentence; otherwise they start with `<s>`, end with `</s>`, and have at least two tokens per sentence |
| StandardBpe.SentenceShape | src/service/standard_bpe.rs:36-44 | `SentenceTokens` (the model of `tokenize_sentence_with_markers`) gives `<s>`, the sentence's word tokens, then `</s>`: at least two more tokens than words, and every inner token is a key or `<unk>` |
| StandardBpe.WordTokensEach | src/service/standard_bpe.rs:39-41 | each word, after `▁` is put in front and it is lowercased, gives at least one token |
| StandardBpe.WordTokensLength | src/service/standard_bpe.rs:39-41 | the words give at least as many tokens as there are words, each a key or `<unk>` |
| StandardBpe.ConcatEnds | src/service/standard_bpe.rs:26 | flattening non-empty lists keeps the first list's first element and the last list's last element at the ends |
| StandardBpe.TokenizeWord | src/service/standard_bpe.rs:46-74 | no more tokens than characters, and every token is a vocabulary key or `<unk>` |
| StandardBpe.TokenizeWordEmpty | src/service/standard_bpe.rs:46-73 | a word gives no tokens if and only if it is empty |
| StandardBpe.TokenizeWordSplit | src/service/standard_bpe.rs:53-69 | when `w[start..start+len]` is a hit of maximal length, highest score and largest start on equal scores, the result is the left part's tokens, that hit, then the right part's tokens |
| StandardBpe.TokenizeWholeWord | src/service/standard_bpe.rs:53-69 | a non-empty word that is a key is one token, itself |
| StandardBpe.TokenizeWordUnknown | src/service/standard_bpe.rs:53-73 | a non-empty word with no substring in the vocabulary is exactly `[<unk>]`, and, when `<unk>` is not a key, only such a word is |
| StandardBpe.TokenizeWordSpells | src/service/standard_bpe.rs:46-74 | when every character of the word is a key, the tokens concatenate to the word |
| StandardBpe.HitsFrom | src/service/standard_bpe.rs:54-60 | exactly the starts of the hits of the given length, in increasing order |
| StandardBpe.LastMax | src/service/standard_bpe.rs:62-64 | the position of a maximal score, with every later score strictly smaller (the last maximum, as `max_by_key` returns) |
| StandardBpe.BestHit | src/service/standard_bpe.rs:54-64 | none exactly when no substring of that length is a key; otherwise a hit meeting the score and last-start rules |
| StandardBpe.BestHitFacts | src/service/standard_bpe.rs:62-64 | the last maximum of the scores is the highest-scoring hit, and the largest such start when scores tie |
| StandardBpe.BestUnique | src/service/standard_bpe.rs:62-64 | the rules select at most one hit of each length |
| StandardBpe.LongestHitSpec | src/service/standard_bpe.rs:53-71 | the descending length search `LongestHit` finds none exactly when no substring of length 1 to `len` is a key; otherwise a best hit of some length with no hit of any greater length |
| StandardBpe.NoHitStep | src/service/standard_bpe.rs:53 | the range of lengths with no hit can be widened by one length that has no hit |
| StandardBpe.ParseLineFields | src/service/standard_bpe.rs:83-91 | a line `token score …` inserts `token ↦ score` when the score parses and is a bad score otherwise, whatever fields follow |
| StandardBpe.LoadSkipsShortLine | src/service/standard_bpe.rs:85 | a line with fewer than two fields changes nothing and raises nothing |
| StandardBpe.LoadStopsAtBadScore | src/service/standard_bpe.rs:87-95 | at the first bad score, loading returns `InvalidData` with every earlier line applied and no later line read |
| StandardBpe.LoadSucceeds | src/service/standard_bpe.rs:81-95 | loading succeeds if and only if no line has an unparseable score |
| StandardBpe.LoadLastWins | src/service/standard_bpe.rs:91 | after a successful load, a token maps to the score of the last line that inserts it |
| StandardBpe.LoadKeeps | src/service/standard_bpe.rs:81-93 | a token that no line inserts keeps its entry, or stays absent |
| StandardBpe.StandardBPE.LoadVocabFromLines | src/service/standard_bpe.rs:77-96 | the new vocabulary and the error are those of `LoadLines`: applying the lines (each read by `ParseLine`) in order from the old vocabulary, stopping at the first bad score |

## Left out

- ByteLevelBpe.ByteLevelBPE.Train: runs at most `fuel` rounds of the merge loop. When a round picks a pair whose token is already known, the source retries with unchanged state and may never end. When the fuel runs out in a state where the source's loop goes on, the model reports `terminated == false` and stores the state reached; this covers both a loop that would end in later rounds and one that never ends, which the model does not tell apart. Divergence cannot be expressed without `decreases *`.
- ByteLevelBpe.CountPairs: counts are unbounded naturals. In the source, `or_insert(0)` makes them `i32`, so more than 2^31 - 1 windows of one pair would overflow (a panic in debug builds, a wrap-around in release builds); this is not modelled.
- ByteLevelBpe.ByteLevelBPE.Train: says that each merge was some most frequent pair. Which pair wins among equal counts depends on `HashMap` iteration order and is left open. Which distinct byte gets which of the new byte ids is left open in the same way (`HashSet` order); every byte id is still below every merge id of the same call.
- ByteLevelBpe.ByteLevelBPE.Train: the source pushes each merge onto `self.merges` at once and assigns `vocab` and `reverse_vocab` at the end. The model assigns all three at the end. The two agree whenever `train` returns.
- Text is a byte sequence. `str::as_bytes` (UTF-8 encoding) in `train` and `encode`, and `String::from_utf8_lossy` in `decode`, are not modelled. ByteLevelBpe.ByteLevelBPE.Decode returns the bytes before the lossy step.
- ByteLevelBpe.ByteLevelBPE.Train: ids are unbounded naturals. Overflow of the `u32` counter `current_id` is not modelled.
- StandardBpe.TextRules: sentence and word segmentation (Unicode Standard Annex #29, sections 5 and 4) and `str::to_lowercase` are parameters of the model, not definitions.
- StandardBpe.StandardBPE.LoadVocabFromLines: takes the file's lines. `File::open`, `BufReader::lines` and their I/O errors are not modelled.
- StandardBpe.StandardBPE.LoadVocabFromLines: the error is only the kind `InvalidData`. The message text with the parse error is not modelled.
- RustStr.ParseIsize: `isize` is taken to be 64 bits wide. The kind of parse error (empty, invalid digit, overflow) is not distinguished.
- src/service/simple_tokenizer.rs is not part of this model: it only wraps `split_whitespace` and `chars`.
- Also not part of this model:
  - the HTTP server and routing (src/main.rs, src/http/api.rs);
  - settings loading (src/setting/settings.rs);
  - the shared `Arc<Mutex<…>>` wrappers (src/service/shared_state.rs, src/service/shared_tokenizer.rs);
  - the request and response records (src/models/).
