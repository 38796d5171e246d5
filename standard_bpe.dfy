/**
 * The greedy longest-match segmenter `StandardBPE`: a vocabulary from token
 * strings to `isize` scores, a recursive word segmenter, sentence markers,
 * and a loader that reads `token score` lines into the vocabulary.
 */
module StandardBpe {
  import opened Wrappers
  import opened Seqs
  import opened RustStr

  const SentenceStart: string := "<s>"
  const SentenceEnd: string := "</s>"
  /** U+2581 LOWER ONE EIGHTH BLOCK, put in front of every word. */
  const WordBreak: char := '\U{2581}'
  const Unknown: string := "<unk>"

  type Vocab = map<string, int>

  /**
   * The Unicode services the tokenizer calls but that are not part of this
   * model: sentence segmentation and word segmentation (Unicode Standard
   * Annex #29, sections 5 and 4) and `str::to_lowercase`.
   */
  datatype TextRules = TextRules(
    sentences: string -> seq<string>,
    words: string -> seq<string>,
    lowercase: string -> string)

  // ---------------------------------------------------------------------------
  // Candidate search of tokenize_word
  // ---------------------------------------------------------------------------

  /** The substring of `w` of length `len` starting at `start` is a vocabulary key. */
  predicate IsHit(vocab: Vocab, w: string, start: int, len: int) {
    0 <= start && 0 <= len && start + len <= |w| && w[start..start + len] in vocab
  }

  /** The score of a hit. */
  function Score(vocab: Vocab, w: string, start: int, len: int): int
    requires IsHit(vocab, w, start, len)
  {
    vocab[w[start..start + len]]
  }

  /** The starts of the hits of length `len`, at `from` or later, in increasing order. */
  function HitsFrom(vocab: Vocab, w: string, len: nat, from: nat): (r: seq<nat>)
    requires len >= 1
    ensures forall k :: 0 <= k < |r| ==> from <= r[k] && IsHit(vocab, w, r[k], len)
    ensures forall x :: from <= x && IsHit(vocab, w, x, len) ==> x in r
    ensures forall j, k :: 0 <= j < k < |r| ==> r[j] < r[k]
    decreases |w| - from
  {
    if from + len > |w| then []
    else (if IsHit(vocab, w, from, len) then [from] else []) + HitsFrom(vocab, w, len, from + 1)
  }

  /** `Iterator::max_by_key` over a list of scores: the position of the last maximum. */
  function LastMax(scores: seq<int>): (k: nat)
    requires |scores| > 0
    ensures k < |scores|
    ensures forall j :: 0 <= j < |scores| ==> scores[j] <= scores[k]
    ensures forall j :: k < j < |scores| ==> scores[j] < scores[k]
    decreases |scores|
  {
    if |scores| == 1 then 0
    else
      var k := LastMax(scores[..|scores| - 1]);
      if scores[|scores| - 1] >= scores[k] then |scores| - 1 else k
  }

  /**
   * The three selection rules for length `len`: `w[start..start + len]` is a
   * hit, no hit of that length has a higher score, and on an equal score no
   * hit starts later.
   */
  ghost predicate Best(vocab: Vocab, w: string, start: nat, len: nat) {
    IsHit(vocab, w, start, len) &&
    (forall x :: IsHit(vocab, w, x, len) ==> Score(vocab, w, x, len) <= Score(vocab, w, start, len)) &&
    (forall x :: IsHit(vocab, w, x, len) && Score(vocab, w, x, len) == Score(vocab, w, start, len) ==>
      x <= start)
  }

  /** No substring whose length is above `lo` and at most `hi` is a key. */
  ghost predicate NoHitBetween(vocab: Vocab, w: string, lo: int, hi: int) {
    forall x, l :: lo < l <= hi ==> !IsHit(vocab, w, x, l)
  }

  /** The rules pick at most one hit of each length. */
  lemma BestUnique(vocab: Vocab, w: string, s: nat, t: nat, len: nat)
    requires Best(vocab, w, s, len) && Best(vocab, w, t, len)
    ensures s == t
  {
    assert Score(vocab, w, s, len) == Score(vocab, w, t, len);
  }

  /** The hit of length `len` that `tokenize_word` picks, if there is any. */
  function BestHit(vocab: Vocab, w: string, len: nat): (r: Option<nat>)
    requires len >= 1
    ensures r.None? <==> forall x :: !IsHit(vocab, w, x, len)
    ensures r.Some? ==> Best(vocab, w, r.value, len)
  {
    var starts := HitsFrom(vocab, w, len, 0);
    if starts == [] then None
    else
      var scores := ScoresOf(vocab, w, len, starts);
      var k := LastMax(scores);
      BestHitFacts(vocab, w, len, starts, scores, k);
      Some(starts[k])
  }

  /** The scores of a list of hits, one per hit. */
  function ScoresOf(vocab: Vocab, w: string, len: nat, starts: seq<nat>): (scores: seq<int>)
    requires forall k :: 0 <= k < |starts| ==> IsHit(vocab, w, starts[k], len)
    ensures |scores| == |starts|
    ensures forall j :: 0 <= j < |starts| ==> scores[j] == Score(vocab, w, starts[j], len)
  {
    seq(|starts|, j requires 0 <= j < |starts| => Score(vocab, w, starts[j], len))
  }

  lemma BestHitFacts(vocab: Vocab, w: string, len: nat, starts: seq<nat>, scores: seq<int>, k: nat)
    requires len >= 1 && starts == HitsFrom(vocab, w, len, 0)
    requires |scores| == |starts| && k < |starts|
    requires forall j :: 0 <= j < |starts| ==> scores[j] == Score(vocab, w, starts[j], len)
    requires forall j :: 0 <= j < |scores| ==> scores[j] <= scores[k]
    requires forall j :: k < j < |scores| ==> scores[j] < scores[k]
    ensures Best(vocab, w, starts[k], len)
  {
    forall x | IsHit(vocab, w, x, len)
      ensures Score(vocab, w, x, len) <= scores[k]
      ensures Score(vocab, w, x, len) == scores[k] ==> x <= starts[k]
    {
      var j :| 0 <= j < |starts| && starts[j] == x;
      assert scores[j] == Score(vocab, w, x, len);
      if j > k {
        assert starts[k] < starts[j];
      } else if j < k {
        assert starts[j] < starts[k];
      }
    }
  }

  /**
   * The descending length search over `(1..=word.len()).rev()`, from
   * length `len` down (callers pass `|w|`): the first length that has any
   * hit, with the hit the rules pick for it. The result is `(start, end)`,
   * a non-empty span of the word; `LongestHitSpec` states which one.
   */
  function LongestHit(vocab: Vocab, w: string, len: nat): (r: Option<(nat, nat)>)
    ensures r.Some? ==> r.value.0 < r.value.1 <= |w| && r.value.1 - r.value.0 <= len
    ensures r.Some? ==> w[r.value.0..r.value.1] in vocab
    decreases len
  {
    if len == 0 then None
    else
      match BestHit(vocab, w, len)
      case Some(start) =>
        assert IsHit(vocab, w, start, len);
        Some((start, start + len))
      case None => LongestHit(vocab, w, len - 1)
  }

  /**
   * What the search over lengths `len` down to 1 should answer: nothing
   * exactly when no substring of those lengths is a key, otherwise the span
   * of the best hit of the longest length that has one.
   */
  ghost predicate SearchResult(vocab: Vocab, w: string, len: nat, r: Option<(nat, nat)>) {
    (r.None? <==> NoHitBetween(vocab, w, 0, len)) &&
    (r.Some? ==> r.value.0 < r.value.1 <= |w| && r.value.1 - r.value.0 <= len &&
                 Best(vocab, w, r.value.0, r.value.1 - r.value.0) &&
                 NoHitBetween(vocab, w, r.value.1 - r.value.0, len))
  }

  /** The descending length search returns the best hit of the longest length that has one. */
  lemma {:induction false} LongestHitSpec(vocab: Vocab, w: string, len: nat)
    ensures SearchResult(vocab, w, len, LongestHit(vocab, w, len))
    decreases len
  {
    if len > 0 {
      match BestHit(vocab, w, len)
      case Some(start) =>
        assert LongestHit(vocab, w, len) == Some((start, start + len));
        LongestHitFound(vocab, w, start, len);
      case None =>
        assert LongestHit(vocab, w, len) == LongestHit(vocab, w, len - 1);
        LongestHitSpec(vocab, w, len - 1);
        LongestHitShorter(vocab, w, len, LongestHit(vocab, w, len - 1));
    }
  }

  /** A best hit of length `len` is the search's answer at `len`. */
  lemma LongestHitFound(vocab: Vocab, w: string, start: nat, len: nat)
    requires len >= 1 && Best(vocab, w, start, len)
    ensures SearchResult(vocab, w, len, Some((start, start + len)))
  {
    assert IsHit(vocab, w, start, len);
    assert (start + len) - start == len;
  }

  /** With no hit of length `len`, the answer for `len - 1` is the answer for `len`. */
  lemma LongestHitShorter(vocab: Vocab, w: string, len: nat, r: Option<(nat, nat)>)
    requires len >= 1 && forall x :: !IsHit(vocab, w, x, len)
    requires SearchResult(vocab, w, len - 1, r)
    ensures SearchResult(vocab, w, len, r)
  {
    NoHitStep(vocab, w, 0, len);
    if r.Some? {
      NoHitStep(vocab, w, r.value.1 - r.value.0, len);
    }
  }

  /** Widening the range of lengths without a hit by one more length. */
  lemma NoHitStep(vocab: Vocab, w: string, lo: int, len: int)
    requires lo < len
    ensures NoHitBetween(vocab, w, lo, len) <==>
      NoHitBetween(vocab, w, lo, len - 1) && forall x :: !IsHit(vocab, w, x, len)
  {
    if NoHitBetween(vocab, w, lo, len - 1) && forall x :: !IsHit(vocab, w, x, len) {
      forall x, l | lo < l <= len
        ensures !IsHit(vocab, w, x, l)
      {
        if l < len {
          assert lo < l <= len - 1;
        }
      }
    }
  }

  // ---------------------------------------------------------------------------
  // tokenize_word
  // ---------------------------------------------------------------------------

  /**
   * `tokenize_word`: split the word around the chosen hit and segment both
   * remainders the same way; a word with no hit at all is one `<unk>`.
   */
  function TokenizeWord(vocab: Vocab, w: string): (r: seq<string>)
    ensures |r| <= |w|
    ensures forall k :: 0 <= k < |r| ==> r[k] in vocab || r[k] == Unknown
    decreases |w|
  {
    if w == [] then []
    else
      match LongestHit(vocab, w, |w|)
      case None => [Unknown]
      case Some((start, end)) =>
        TokenizeWord(vocab, w[..start]) + [w[start..end]] + TokenizeWord(vocab, w[end..])
  }

  /** A word gives no tokens exactly when it is empty. */
  lemma TokenizeWordEmpty(vocab: Vocab, w: string)
    ensures TokenizeWord(vocab, w) == [] <==> w == []
  {
  }

  /**
   * The three selection rules determine the split: when `w[start..start + len]`
   * is a hit of maximal length, of maximal score among hits of that length,
   * and the last of those on equal scores, the word is segmented around it.
   */
  lemma TokenizeWordSplit(vocab: Vocab, w: string, start: nat, len: nat)
    requires 1 <= len && start + len <= |w|
    requires Best(vocab, w, start, len) && NoHitBetween(vocab, w, len, |w|)
    ensures TokenizeWord(vocab, w) ==
      TokenizeWord(vocab, w[..start]) + [w[start..start + len]] + TokenizeWord(vocab, w[start + len..])
  {
    var r := LongestHit(vocab, w, |w|);
    LongestHitSpec(vocab, w, |w|);
    assert !NoHitBetween(vocab, w, 0, |w|);
    var (s, e) := r.value;
    assert IsHit(vocab, w, s, e - s);
    assert e - s == len;
    BestUnique(vocab, w, s, start, len);
    assert r == Some((start, start + len));
  }

  /** A word that is itself a vocabulary key is one token. */
  lemma TokenizeWholeWord(vocab: Vocab, w: string)
    requires w != [] && w in vocab
    ensures TokenizeWord(vocab, w) == [w]
  {
    assert w[0..|w|] == w;
    assert IsHit(vocab, w, 0, |w|);
    forall x | IsHit(vocab, w, x, |w|) ensures x == 0 {
    }
    assert Best(vocab, w, 0, |w|);
    assert NoHitBetween(vocab, w, |w|, |w|);
    TokenizeWordSplit(vocab, w, 0, |w|);
    assert w[..0] == [] && w[|w|..] == [];
    TokenizeWordEmpty(vocab, []);
  }

  /**
   * A non-empty word is a single `<unk>` when none of its substrings is a
   * key, and (as long as `<unk>` itself is not a key) only then.
   */
  lemma TokenizeWordUnknown(vocab: Vocab, w: string)
    requires w != []
    ensures NoHitBetween(vocab, w, 0, |w|) ==> TokenizeWord(vocab, w) == [Unknown]
    ensures Unknown !in vocab && TokenizeWord(vocab, w) == [Unknown] ==> NoHitBetween(vocab, w, 0, |w|)
  {
    var r := LongestHit(vocab, w, |w|);
    LongestHitSpec(vocab, w, |w|);
    if Unknown !in vocab && r.Some? {
      var (s, e) := r.value;
      var tl := TokenizeWord(vocab, w[..s]);
      var t := TokenizeWord(vocab, w);
      assert t == tl + [w[s..e]] + TokenizeWord(vocab, w[e..]);
      assert t[|tl|] == w[s..e];
      assert IsHit(vocab, w, s, e - s);
      assert t[|tl|] != Unknown;
    }
  }

  /** When every character of the word is a key, the tokens spell the word exactly. */
  lemma {:induction false} TokenizeWordSpells(vocab: Vocab, w: string)
    requires forall i :: 0 <= i < |w| ==> [w[i]] in vocab
    ensures Concat(TokenizeWord(vocab, w)) == w
    decreases |w|
  {
    if w != [] {
      var r := LongestHit(vocab, w, |w|);
      LongestHitSpec(vocab, w, |w|);
      assert r.Some? by {
        assert w[0..1] == [w[0]];
        assert IsHit(vocab, w, 0, 1);
        assert !NoHitBetween(vocab, w, 0, |w|);
      }
      var (s, e) := r.value;
      TokenizeWordSpells(vocab, w[..s]);
      TokenizeWordSpells(vocab, w[e..]);
      var tl, tr := TokenizeWord(vocab, w[..s]), TokenizeWord(vocab, w[e..]);
      assert TokenizeWord(vocab, w) == tl + [w[s..e]] + tr;
      ConcatAround(tl, tr, w, s, e);
    }
  }

  /** Pieces that spell a word before and after a middle slice spell the word around it. */
  lemma ConcatAround<T>(left: seq<seq<T>>, right: seq<seq<T>>, w: seq<T>, s: nat, e: nat)
    requires s <= e <= |w| && Concat(left) == w[..s] && Concat(right) == w[e..]
    ensures Concat(left + [w[s..e]] + right) == w
  {
    ConcatAppend(left + [w[s..e]], right);
    ConcatAppend(left, [w[s..e]]);
    assert Concat([w[s..e]]) == w[s..e];
    assert w[s..] == w[s..e] + w[e..];
    assert w == w[..s] + w[s..];
  }

  // ---------------------------------------------------------------------------
  // Sentences and the whole text
  // ---------------------------------------------------------------------------

  /** The tokens of the words of a sentence: each word gets `▁` in front and is lowercased. */
  function WordTokens(vocab: Vocab, rules: TextRules, words: seq<string>): seq<string> {
    Concat(seq(|words|, i requires 0 <= i < |words| =>
      TokenizeWord(vocab, [WordBreak] + rules.lowercase(words[i]))))
  }

  /** `tokenize_sentence_with_markers`. */
  function SentenceTokens(vocab: Vocab, rules: TextRules, sentence: string): seq<string> {
    [SentenceStart] + WordTokens(vocab, rules, rules.words(sentence)) + [SentenceEnd]
  }

  /** `split_into_sentences`: one token list per sentence. */
  function SentenceLists(vocab: Vocab, rules: TextRules, text: string): seq<seq<string>> {
    var sentences := rules.sentences(text);
    seq(|sentences|, i requires 0 <= i < |sentences| => SentenceTokens(vocab, rules, sentences[i]))
  }

  /** `tokenize`: the sentence token lists, flattened. */
  function TokenizeText(vocab: Vocab, rules: TextRules, text: string): seq<string> {
    Concat(SentenceLists(vocab, rules, text))
  }

  /** Every word, with `▁` in front and lowercased, gives at least one token. */
  lemma WordTokensEach(vocab: Vocab, rules: TextRules, words: seq<string>)
    ensures forall i :: 0 <= i < |words| ==> |TokenizeWord(vocab, [WordBreak] + rules.lowercase(words[i]))| >= 1
  {
    forall i | 0 <= i < |words|
      ensures |TokenizeWord(vocab, [WordBreak] + rules.lowercase(words[i]))| >= 1
    {
      TokenizeWordEmpty(vocab, [WordBreak] + rules.lowercase(words[i]));
    }
  }

  /** The words give at least as many tokens as there are words. */
  lemma {:induction false} WordTokensLength(vocab: Vocab, rules: TextRules, words: seq<string>)
    ensures |WordTokens(vocab, rules, words)| >= |words|
    ensures forall t :: t in WordTokens(vocab, rules, words) ==> t in vocab || t == Unknown
    decreases |words|
  {
    if words != [] {
      var ss := seq(|words|, i requires 0 <= i < |words| =>
        TokenizeWord(vocab, [WordBreak] + rules.lowercase(words[i])));
      assert ss[1..] == seq(|words[1..]|, i requires 0 <= i < |words[1..]| =>
        TokenizeWord(vocab, [WordBreak] + rules.lowercase(words[1..][i])));
      WordTokensLength(vocab, rules, words[1..]);
      TokenizeWordEmpty(vocab, [WordBreak] + rules.lowercase(words[0]));
      assert WordTokens(vocab, rules, words) == ss[0] + WordTokens(vocab, rules, words[1..]);
    }
  }

  /**
   * A sentence is `<s>`, then its word tokens, then `</s>`: it has at least
   * two more tokens than words, and every token inside its markers is a key
   * or `<unk>`.
   */
  lemma SentenceShape(vocab: Vocab, rules: TextRules, sentence: string)
    ensures var r := SentenceTokens(vocab, rules, sentence);
      |r| >= 2 + |rules.words(sentence)| && r[0] == SentenceStart && r[|r| - 1] == SentenceEnd &&
      forall i :: 0 < i < |r| - 1 ==> r[i] in vocab || r[i] == Unknown
  {
    var inner := WordTokens(vocab, rules, rules.words(sentence));
    WordTokensLength(vocab, rules, rules.words(sentence));
    var r := SentenceTokens(vocab, rules, sentence);
    forall i | 0 < i < |r| - 1
      ensures r[i] in vocab || r[i] == Unknown
    {
      assert r[i] == inner[i - 1];
      assert inner[i - 1] in inner;
    }
  }

  /** Concatenating non-empty lists: the result starts with the first list's head and ends with the last list's tail. */
  lemma {:induction false} ConcatEnds(ss: seq<seq<string>>)
    requires |ss| > 0 && forall k :: 0 <= k < |ss| ==> |ss[k]| > 0
    ensures var c := Concat(ss); |c| > 0 && c[0] == ss[0][0] && c[|c| - 1] == ss[|ss| - 1][|ss[|ss| - 1]| - 1]
    ensures |Concat(ss)| >= |ss|
    decreases |ss|
  {
    if |ss| > 1 {
      ConcatEnds(ss[1..]);
    }
  }

  /**
   * A tokenized text is empty exactly when the text has no sentences; otherwise
   * it starts with `<s>`, ends with `</s>` and has at least two tokens per sentence.
   */
  lemma TokenizeTextShape(vocab: Vocab, rules: TextRules, text: string)
    ensures TokenizeText(vocab, rules, text) == [] <==> rules.sentences(text) == []
    ensures var r := TokenizeText(vocab, rules, text);
      r != [] ==> r[0] == SentenceStart && r[|r| - 1] == SentenceEnd
    ensures |TokenizeText(vocab, rules, text)| >= 2 * |rules.sentences(text)|
  {
    var ss := SentenceLists(vocab, rules, text);
    forall k | 0 <= k < |ss|
      ensures |ss[k]| >= 2 && ss[k][0] == SentenceStart && ss[k][|ss[k]| - 1] == SentenceEnd
    {
      SentenceShape(vocab, rules, rules.sentences(text)[k]);
    }
    if ss != [] {
      ConcatEnds(ss);
    }
    ConcatLength(ss);
  }

  lemma {:induction false} ConcatLength(ss: seq<seq<string>>)
    requires forall k :: 0 <= k < |ss| ==> |ss[k]| >= 2
    ensures |Concat(ss)| >= 2 * |ss|
    decreases |ss|
  {
    if ss != [] {
      ConcatLength(ss[1..]);
    }
  }

  // ---------------------------------------------------------------------------
  // Loading the vocabulary
  // ---------------------------------------------------------------------------

  /** What one line of a vocabulary file does. */
  datatype LineEffect =
    | Skip                          // fewer than two fields
    | Insert(token: string, score: int)
    | BadScore                      // the second field is not an `isize`

  /** `io::ErrorKind::InvalidData`, the error a bad score raises. */
  datatype LoadError = InvalidData

  /** The outcome of loading: the vocabulary reached and the error, if any. */
  datatype Loaded = Loaded(vocab: Vocab, error: Option<LoadError>)

  /** The effect of one line: its first field, scored by its second. */
  function ParseLine(line: string): LineEffect {
    var parts := SplitWhitespace(line);
    if |parts| >= 2 then
      match ParseIsize(parts[1])
      case Some(score) => Insert(parts[0], score)
      case None => BadScore
    else Skip
  }

  /** The lines applied in order, stopping at the first bad score. */
  function LoadLines(vocab: Vocab, lines: seq<string>): Loaded
    decreases |lines|
  {
    if lines == [] then Loaded(vocab, None)
    else
      match ParseLine(lines[0])
      case Skip => LoadLines(vocab, lines[1..])
      case Insert(token, score) => LoadLines(vocab[token := score], lines[1..])
      case BadScore => Loaded(vocab, Some(InvalidData))
  }

  /** A line `token score …` inserts `token ↦ score`, whatever follows the second field. */
  lemma ParseLineFields(token: string, digits: string, rest: seq<string>)
    requires IsField(token) && IsField(digits)
    requires forall k :: 0 <= k < |rest| ==> IsField(rest[k])
    ensures ParseLine(JoinFields([token, digits] + rest)) ==
      match ParseIsize(digits) case Some(n) => Insert(token, n) case None => BadScore
  {
    var fields := [token, digits] + rest;
    assert fields[2..] == rest;
    forall k | 0 <= k < |fields|
      ensures IsField(fields[k])
    {
      if k >= 2 {
        assert fields[k] == fields[2..][k - 2];
      }
    }
    SplitJoin(fields);
    ParseLineOf(JoinFields(fields), fields);
  }

  lemma ParseLineOf(line: string, parts: seq<string>)
    requires SplitWhitespace(line) == parts && |parts| >= 2
    ensures ParseLine(line) == match ParseIsize(parts[1]) case Some(n) => Insert(parts[0], n) case None => BadScore
  {
  }

  /** A line with fewer than two fields changes nothing and raises nothing. */
  lemma {:induction false} LoadSkipsShortLine(vocab: Vocab, before: seq<string>, line: string, after: seq<string>)
    requires |SplitWhitespace(line)| < 2
    ensures LoadLines(vocab, before + [line] + after) == LoadLines(vocab, before + after)
    decreases |before|
  {
    if before == [] {
      assert (before + [line] + after)[1..] == after;
      assert before + after == after;
    } else {
      assert (before + [line] + after)[0] == before[0];
      assert (before + [line] + after)[1..] == before[1..] + [line] + after;
      assert (before + after)[0] == before[0];
      assert (before + after)[1..] == before[1..] + after;
      match ParseLine(before[0])
      case Skip => LoadSkipsShortLine(vocab, before[1..], line, after);
      case Insert(t, n) => LoadSkipsShortLine(vocab[t := n], before[1..], line, after);
      case BadScore =>
    }
  }

  /**
   * A bad score stops loading with `InvalidData`: the lines before it stay
   * applied and the lines after it are not read.
   */
  lemma {:induction false} LoadStopsAtBadScore(vocab: Vocab, before: seq<string>, line: string, after: seq<string>)
    requires forall k :: 0 <= k < |before| ==> !ParseLine(before[k]).BadScore?
    requires ParseLine(line).BadScore?
    ensures LoadLines(vocab, before + [line] + after) ==
      Loaded(LoadLines(vocab, before).vocab, Some(InvalidData))
    decreases |before|
  {
    var all := before + [line] + after;
    if before == [] {
      assert all[0] == line;
    } else {
      assert all[0] == before[0];
      assert all[1..] == before[1..] + [line] + after;
      match ParseLine(before[0])
      case Skip => LoadStopsAtBadScore(vocab, before[1..], line, after);
      case Insert(t, n) => LoadStopsAtBadScore(vocab[t := n], before[1..], line, after);
    }
  }

  /** Loading succeeds exactly when no line has a bad score. */
  lemma {:induction false} LoadSucceeds(vocab: Vocab, lines: seq<string>)
    ensures LoadLines(vocab, lines).error.None? <==>
      forall k :: 0 <= k < |lines| ==> !ParseLine(lines[k]).BadScore?
    decreases |lines|
  {
    if lines != [] {
      assert forall k :: 1 <= k < |lines| ==> lines[1..][k - 1] == lines[k];
      match ParseLine(lines[0])
      case Skip => LoadSucceeds(vocab, lines[1..]);
      case Insert(t, n) => LoadSucceeds(vocab[t := n], lines[1..]);
      case BadScore =>
    }
  }

  /** The line that inserts a token.  */
  predicate Inserts(line: string, token: string) {
    ParseLine(line).Insert? && ParseLine(line).token == token
  }

  /**
   * On a load without error, a token's final score is the one of the last
   * line that inserts it: a later line overwrites an earlier entry.
   */
  lemma {:induction false} LoadLastWins(vocab: Vocab, lines: seq<string>, k: nat, token: string, score: int)
    requires k < |lines| && LoadLines(vocab, lines).error.None?
    requires ParseLine(lines[k]) == Insert(token, score)
    requires forall j :: k < j < |lines| ==> !Inserts(lines[j], token)
    ensures token in LoadLines(vocab, lines).vocab && LoadLines(vocab, lines).vocab[token] == score
    decreases |lines|
  {
    var rest := lines[1..];
    assert forall j :: 0 <= j < |rest| ==> rest[j] == lines[j + 1];
    if k == 0 {
      LoadKeeps(vocab[token := score], rest, token);
    } else {
      match ParseLine(lines[0])
      case Skip => LoadLastWins(vocab, rest, k - 1, token, score);
      case Insert(t, n) => LoadLastWins(vocab[t := n], rest, k - 1, token, score);
    }
  }

  /** A token that no line inserts keeps its entry, or its absence. */
  lemma {:induction false} LoadKeeps(vocab: Vocab, lines: seq<string>, token: string)
    requires forall j :: 0 <= j < |lines| ==> !Inserts(lines[j], token)
    ensures var v := LoadLines(vocab, lines).vocab;
      (token in v <==> token in vocab) && (token in vocab ==> v[token] == vocab[token])
    decreases |lines|
  {
    if lines != [] {
      var rest := lines[1..];
      assert forall j :: 0 <= j < |rest| ==> rest[j] == lines[j + 1];
      match ParseLine(lines[0])
      case Skip => LoadKeeps(vocab, rest, token);
      case Insert(t, n) => LoadKeeps(vocab[t := n], rest, token);
      case BadScore =>
    }
  }

  // ---------------------------------------------------------------------------
  // The tokenizer object
  // ---------------------------------------------------------------------------

  class StandardBPE {
    var vocab: Vocab

    /** `new`: an empty vocabulary. */
    constructor ()
      ensures vocab == map[]
    {
      vocab := map[];
    }

    /** `tokenize`, with the Unicode services passed in. */
    function Tokenize(rules: TextRules, text: string): (r: seq<string>)
      reads this
      ensures r != [] ==> r[0] == SentenceStart && r[|r| - 1] == SentenceEnd
      ensures r == [] <==> rules.sentences(text) == []
    {
      TokenizeTextShape(vocab, rules, text);
      TokenizeText(vocab, rules, text)
    }

    /**
     * The line loop of `load_vocab_from_file`: each line with two or more
     * fields inserts its first field scored by its second; a score that is
     * not an `isize` returns `InvalidData` at once, keeping what was inserted.
     */
    method LoadVocabFromLines(lines: seq<string>) returns (result: Option<LoadError>)
      modifies this
      ensures Loaded(vocab, result) == LoadLines(old(vocab), lines)
    {
      for i := 0 to |lines|
        invariant LoadLines(vocab, lines[i..]) == LoadLines(old(vocab), lines)
      {
        assert lines[i..][0] == lines[i] && lines[i..][1..] == lines[i + 1..];
        var parts := SplitWhitespace(lines[i]);
        if |parts| >= 2 {
          var token := parts[0];
          var value := ParseIsize(parts[1]);
          if value.None? {
            return Some(InvalidData);
          }
          vocab := vocab[token := value.value];
        }
      }
      return None;
    }
  }
}
