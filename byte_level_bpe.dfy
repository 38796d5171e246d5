/**
 * The trainable byte-level Byte-Pair-Encoding codec (`ByteLevelBPE`).
 *
 * A token is a non-empty byte string. Training starts from the one-byte tokens
 * of a text, registers every byte, then repeatedly merges a most frequent
 * adjacent pair into a new token and records the merge rule. Encoding replays
 * the merge rules in training order and maps tokens to ids (id 0, the `<unk>`
 * sentinel, for tokens outside the vocabulary); decoding concatenates the byte
 * strings of the ids.
 */
module ByteLevelBpe {
  import opened Wrappers
  import opened Seqs

  type byte = x: int | 0 <= x < 256
  type Token = seq<byte>
  /** A merge rule: the left and the right token of an adjacent pair. */
  type Pair = (Token, Token)

  /** The bytes of the ASCII string "<unk>". */
  const UnknownToken: Token := [60, 117, 110, 107, 62]
  /** The id of the unknown-token sentinel. */
  const UnknownId: nat := 0

  /** The token a merge rule produces. */
  function Merged(p: Pair): Token {
    p.0 + p.1
  }

  /** The text as a sequence of one-byte tokens. */
  function SingleBytes(bytes: seq<byte>): (r: seq<Token>)
    ensures |r| == |bytes|
    ensures Concat(r) == bytes
  {
    ConcatSingletons(bytes);
    seq(|bytes|, i requires 0 <= i < |bytes| => [bytes[i]])
  }

  /** The distinct one-byte tokens of a text. */
  function UniqueBytes(bytes: seq<byte>): set<Token> {
    set i | 0 <= i < |bytes| :: [bytes[i]]
  }

  /** The keys are the old keys plus exactly the ids `lo`, `lo + 1`, ..., `hi - 1`. */
  ghost predicate AddsIdRange(oldKeys: set<nat>, keys: set<nat>, lo: nat, hi: nat) {
    forall id :: id in keys <==> id in oldKeys || lo <= id < hi
  }

  // ---------------------------------------------------------------------------
  // Vocabulary invariants
  // ---------------------------------------------------------------------------

  /** The token->id and id->token maps are inverse to each other. */
  ghost predicate Inverse(v: map<Token, nat>, rv: map<nat, Token>) {
    (forall t :: t in v ==> v[t] in rv && rv[v[t]] == t) &&
    (forall id :: id in rv ==> rv[id] in v && v[rv[id]] == id)
  }

  /** Every merge rule has non-empty parts, and the token it produces is in the vocabulary. */
  ghost predicate MergesKnown(v: map<Token, nat>, ms: seq<Pair>) {
    forall j :: 0 <= j < |ms| ==> |ms[j].0| > 0 && |ms[j].1| > 0 && Merged(ms[j]) in v
  }

  /** Every token of the list is a non-empty vocabulary key. */
  ghost predicate AllKnown(v: map<Token, nat>, tokens: seq<Token>) {
    forall t :: t in tokens ==> t in v && |t| > 0
  }

  /** The merges from index `from` on got strictly increasing ids, in the order they were recorded. */
  ghost predicate MergeIdsIncreasing(v: map<Token, nat>, ms: seq<Pair>, from: nat) {
    forall j, k ::
      from <= j < k < |ms| && Merged(ms[j]) in v && Merged(ms[k]) in v ==>
        v[Merged(ms[j])] < v[Merged(ms[k])]
  }

  /** Every key of `v` is a token of `registered` or the token of a merge from index `from` on. */
  ghost predicate KeysFrom(v: map<Token, nat>, registered: set<Token>, ms: seq<Pair>, from: nat) {
    forall t :: t in v ==> t in registered || exists j :: from <= j < |ms| && t == Merged(ms[j])
  }

  /** Every token of `registered` has a smaller id than the token of each merge from index `from` on. */
  ghost predicate RegisteredFirst(v: map<Token, nat>, registered: set<Token>, ms: seq<Pair>, from: nat) {
    forall t, j ::
      t in registered && t in v && from <= j < |ms| && Merged(ms[j]) in v ==> v[t] < v[Merged(ms[j])]
  }

  // ---------------------------------------------------------------------------
  // Specification of the pair statistics and of the merge rewrite
  // ---------------------------------------------------------------------------

  /** The pair `p` sits at positions `i` and `i + 1` of the token list. */
  predicate Occurs(tokens: seq<Token>, p: Pair, i: int) {
    0 <= i && i + 1 < |tokens| && tokens[i] == p.0 && tokens[i + 1] == p.1
  }

  /** The number of windows of width two of `tokens` that equal `p`. */
  function PairCount(tokens: seq<Token>, p: Pair): nat
    decreases |tokens|
  {
    if |tokens| < 2 then 0
    else PairCount(tokens[..|tokens| - 1], p) + (if (tokens[|tokens| - 2], tokens[|tokens| - 1]) == p then 1 else 0)
  }

  lemma {:induction false} PairCountOccurs(tokens: seq<Token>, p: Pair)
    ensures PairCount(tokens, p) > 0 <==> exists i :: Occurs(tokens, p, i)
    decreases |tokens|
  {
    if |tokens| >= 2 {
      var init := tokens[..|tokens| - 1];
      PairCountOccurs(init, p);
      if exists i :: Occurs(init, p, i) {
        var i :| Occurs(init, p, i);
        assert Occurs(tokens, p, i);
      }
      if (tokens[|tokens| - 2], tokens[|tokens| - 1]) == p {
        assert Occurs(tokens, p, |tokens| - 2);
      }
      if exists i :: Occurs(tokens, p, i) {
        var i :| Occurs(tokens, p, i);
        if i + 2 < |tokens| {
          assert Occurs(init, p, i);
        } else {
          assert (tokens[|tokens| - 2], tokens[|tokens| - 1]) == p;
        }
      }
    }
  }

  /**
   * The training rewrite: scan left to right and replace every non-overlapping
   * occurrence of the pair by the merged token.
   */
  function MergeAll(tokens: seq<Token>, p: Pair): seq<Token>
    decreases |tokens|
  {
    if |tokens| < 2 then tokens
    else if tokens[0] == p.0 && tokens[1] == p.1 then [Merged(p)] + MergeAll(tokens[2..], p)
    else [tokens[0]] + MergeAll(tokens[1..], p)
  }

  /** One step of the rewrite, at position `i` of the list. */
  lemma MergeAllAt(tokens: seq<Token>, p: Pair, i: nat)
    requires i < |tokens|
    ensures Occurs(tokens, p, i) ==> MergeAll(tokens[i..], p) == [Merged(p)] + MergeAll(tokens[i + 2..], p)
    ensures !Occurs(tokens, p, i) ==> MergeAll(tokens[i..], p) == [tokens[i]] + MergeAll(tokens[i + 1..], p)
  {
    var t := tokens[i..];
    if Occurs(tokens, p, i) {
      assert t[2..] == tokens[i + 2..];
    } else if |t| >= 2 {
      assert t[1..] == tokens[i + 1..];
    } else {
      assert t == [tokens[i]] && tokens[i + 1..] == [];
    }
  }

  /** The rewrite does not change the bytes the tokens spell. */
  lemma {:induction false} MergeAllPreservesBytes(tokens: seq<Token>, p: Pair)
    ensures Concat(MergeAll(tokens, p)) == Concat(tokens)
    decreases |tokens|
  {
    if |tokens| >= 2 {
      if tokens[0] == p.0 && tokens[1] == p.1 {
        MergeAllPreservesBytes(tokens[2..], p);
        ConcatAppend([Merged(p)], MergeAll(tokens[2..], p));
        ConcatAppend(tokens[..2], tokens[2..]);
        assert tokens == tokens[..2] + tokens[2..];
        assert Concat(tokens[..2]) == tokens[0] + tokens[1] by {
          assert tokens[..2][1..] == [tokens[1]];
        }
      } else {
        MergeAllPreservesBytes(tokens[1..], p);
        ConcatAppend([tokens[0]], MergeAll(tokens[1..], p));
      }
    }
  }

  /** The rewrite never lengthens the list, and shortens it when the pair occurs. */
  lemma {:induction false} MergeAllLength(tokens: seq<Token>, p: Pair)
    ensures |MergeAll(tokens, p)| <= |tokens|
    ensures (exists i :: Occurs(tokens, p, i)) ==> |MergeAll(tokens, p)| < |tokens|
    decreases |tokens|
  {
    if |tokens| >= 2 {
      if tokens[0] == p.0 && tokens[1] == p.1 {
        MergeAllLength(tokens[2..], p);
      } else {
        MergeAllLength(tokens[1..], p);
        if exists i :: Occurs(tokens, p, i) {
          var i :| Occurs(tokens, p, i);
          assert i >= 1;
          assert Occurs(tokens[1..], p, i - 1);
        }
      }
    }
  }

  /** The rewrite only produces vocabulary tokens when the merged token is one. */
  lemma {:induction false} MergeAllKnown(v: map<Token, nat>, tokens: seq<Token>, p: Pair)
    requires AllKnown(v, tokens)
    requires Merged(p) in v && |Merged(p)| > 0
    ensures AllKnown(v, MergeAll(tokens, p))
    decreases |tokens|
  {
    if |tokens| >= 2 {
      if tokens[0] == p.0 && tokens[1] == p.1 {
        MergeAllKnown(v, tokens[2..], p);
      } else {
        MergeAllKnown(v, tokens[1..], p);
      }
    }
  }

  /** Merge rules applied one after the other, in the order given. */
  function Replay(tokens: seq<Token>, ms: seq<Pair>): seq<Token>
    decreases |ms|
  {
    if ms == [] then tokens else Replay(MergeAll(tokens, ms[0]), ms[1..])
  }

  lemma {:induction false} ReplayAppend(tokens: seq<Token>, ms: seq<Pair>, m: Pair)
    ensures Replay(tokens, ms + [m]) == MergeAll(Replay(tokens, ms), m)
    decreases |ms|
  {
    if ms == [] {
      assert [m][1..] == [];
    } else {
      assert (ms + [m])[1..] == ms[1..] + [m];
      ReplayAppend(MergeAll(tokens, ms[0]), ms[1..], m);
    }
  }

  lemma {:induction false} ReplayProperties(tokens: seq<Token>, ms: seq<Pair>)
    ensures Concat(Replay(tokens, ms)) == Concat(tokens)
    ensures |Replay(tokens, ms)| <= |tokens|
    decreases |ms|
  {
    if ms != [] {
      MergeAllPreservesBytes(tokens, ms[0]);
      MergeAllLength(tokens, ms[0]);
      ReplayProperties(MergeAll(tokens, ms[0]), ms[1..]);
    }
  }

  lemma {:induction false} ReplayKnown(v: map<Token, nat>, tokens: seq<Token>, ms: seq<Pair>)
    requires AllKnown(v, tokens)
    requires MergesKnown(v, ms)
    ensures AllKnown(v, Replay(tokens, ms))
    decreases |ms|
  {
    if ms != [] {
      MergeAllKnown(v, tokens, ms[0]);
      assert MergesKnown(v, ms[1..]) by {
        forall j | 0 <= j < |ms[1..]| ensures |ms[1..][j].0| > 0 && |ms[1..][j].1| > 0 && Merged(ms[1..][j]) in v {
          assert ms[1..][j] == ms[j + 1];
        }
      }
      ReplayKnown(v, MergeAll(tokens, ms[0]), ms[1..]);
    }
  }

  // ---------------------------------------------------------------------------
  // Specification of encode and decode
  // ---------------------------------------------------------------------------

  /** The id of every token; tokens outside the vocabulary get the unknown id. */
  function IdsOf(v: map<Token, nat>, tokens: seq<Token>): seq<nat> {
    seq(|tokens|, j requires 0 <= j < |tokens| => if tokens[j] in v then v[tokens[j]] else UnknownId)
  }

  /** What `encode` returns: replay all merges on the one-byte tokens, then look up ids. */
  function EncodeIds(v: map<Token, nat>, ms: seq<Pair>, text: seq<byte>): seq<nat> {
    IdsOf(v, Replay(SingleBytes(text), ms))
  }

  /** The byte string of an id; unmapped ids give the bytes of "<unk>". */
  function TokenOf(rv: map<nat, Token>, id: nat): Token {
    if id in rv then rv[id] else UnknownToken
  }

  /** What `decode` returns, before the lossy UTF-8 step: the concatenated byte strings. */
  function DecodeBytes(rv: map<nat, Token>, ids: seq<nat>): seq<byte>
    decreases |ids|
  {
    if ids == [] then [] else DecodeBytes(rv, ids[..|ids| - 1]) + TokenOf(rv, ids[|ids| - 1])
  }

  /** No text gives no ids. */
  lemma EncodeEmpty(v: map<Token, nat>, ms: seq<Pair>)
    ensures EncodeIds(v, ms, []) == []
  {
    ReplayProperties(SingleBytes([]), ms);
  }

  /** Encoding never returns more ids than the text has bytes. */
  lemma EncodeLength(v: map<Token, nat>, ms: seq<Pair>, text: seq<byte>)
    ensures |EncodeIds(v, ms, text)| <= |text|
  {
    ReplayProperties(SingleBytes(text), ms);
  }

  /** Every id `encode` returns is the id of its token or the unknown id, and has a byte string. */
  lemma EncodeIdsMapped(v: map<Token, nat>, rv: map<nat, Token>, ms: seq<Pair>, text: seq<byte>)
    requires Inverse(v, rv) && UnknownId in rv
    ensures forall i :: 0 <= i < |EncodeIds(v, ms, text)| ==> EncodeIds(v, ms, text)[i] in rv
    ensures var tokens := Replay(SingleBytes(text), ms);
      forall i :: 0 <= i < |tokens| ==>
        EncodeIds(v, ms, text)[i] == (if tokens[i] in v then v[tokens[i]] else UnknownId)
  {
  }

  /** Decoding the ids of known tokens spells the tokens' bytes. */
  lemma {:induction false} DecodeIdsOf(v: map<Token, nat>, rv: map<nat, Token>, tokens: seq<Token>)
    requires Inverse(v, rv)
    requires forall t :: t in tokens ==> t in v
    ensures DecodeBytes(rv, IdsOf(v, tokens)) == Concat(tokens)
    decreases |tokens|
  {
    if tokens != [] {
      var n := |tokens| - 1;
      var ids := IdsOf(v, tokens);
      var init, last := tokens[..n], tokens[n];
      assert ids[..n] == IdsOf(v, init);
      assert last in tokens && ids[n] == v[last];
      assert TokenOf(rv, ids[n]) == last;
      assert forall t :: t in init ==> t in tokens;
      DecodeIdsOf(v, rv, init);
      ConcatAppend(init, [last]);
      assert Concat([last]) == last;
      assert init + [last] == tokens;
      calc {
        DecodeBytes(rv, ids);
        DecodeBytes(rv, ids[..n]) + TokenOf(rv, ids[n]);
        Concat(init) + last;
        Concat(init + [last]);
      }
    }
  }

  /**
   * The byte-level round trip: when every token left after merge replay is in
   * the vocabulary, decoding the encoding gives the text back.
   */
  lemma RoundTripWhenKnown(v: map<Token, nat>, rv: map<nat, Token>, ms: seq<Pair>, text: seq<byte>)
    requires Inverse(v, rv)
    requires forall t :: t in Replay(SingleBytes(text), ms) ==> t in v
    ensures DecodeBytes(rv, EncodeIds(v, ms, text)) == text
  {
    DecodeIdsOf(v, rv, Replay(SingleBytes(text), ms));
    ReplayProperties(SingleBytes(text), ms);
  }

  /**
   * The round trip for a text whose every byte is in the vocabulary (for
   * example one seen in training): merge replay then only produces known tokens.
   */
  lemma RoundTrip(v: map<Token, nat>, rv: map<nat, Token>, ms: seq<Pair>, text: seq<byte>)
    requires Inverse(v, rv) && MergesKnown(v, ms)
    requires forall i :: 0 <= i < |text| ==> [text[i]] in v
    ensures DecodeBytes(rv, EncodeIds(v, ms, text)) == text
  {
    var single := SingleBytes(text);
    assert AllKnown(v, single) by {
      forall t | t in single ensures t in v && |t| > 0 {
        var i :| 0 <= i < |single| && single[i] == t;
      }
    }
    ReplayKnown(v, single, ms);
    RoundTripWhenKnown(v, rv, ms, text);
  }

  // ---------------------------------------------------------------------------
  // Helper algorithms of training and encoding
  // ---------------------------------------------------------------------------

  /** `*keys.max().unwrap_or(&0)`: the largest key, or 0 for no keys. */
  method MaxId(keys: set<nat>) returns (m: nat)
    ensures keys == {} ==> m == 0
    ensures keys != {} ==> m in keys
    ensures forall k :: k in keys ==> k <= m
  {
    m := 0;
    var rest := keys;
    while rest != {}
      invariant rest <= keys
      invariant rest == keys ==> m == 0
      invariant rest != keys ==> m in keys - rest
      invariant forall k :: k in keys - rest ==> k <= m
      decreases rest
    {
      var key :| key in rest;
      if rest == keys || key > m {
        m := key;
      }
      assert keys - (rest - {key}) == (keys - rest) + {key};
      rest := rest - {key};
    }
    assert keys - rest == keys;
  }

  /** Counting the adjacent pairs of the token list (`tokens.windows(2)`). */
  method CountPairs(tokens: seq<Token>) returns (counts: map<Pair, nat>)
    ensures forall p :: p in counts <==> PairCount(tokens, p) > 0
    ensures forall p :: p in counts ==> counts[p] == PairCount(tokens, p)
  {
    counts := map[];
    if |tokens| < 2 {
      return;
    }
    var i := 0;
    while i < |tokens| - 1
      invariant 0 <= i <= |tokens| - 1
      invariant forall p :: p in counts <==> PairCount(tokens[..i + 1], p) > 0
      invariant forall p :: p in counts ==> counts[p] == PairCount(tokens[..i + 1], p)
    {
      var key := (tokens[i], tokens[i + 1]);
      var c := if key in counts then counts[key] else 0;
      counts := counts[key := c + 1];
      ghost var next := tokens[..i + 2];
      assert next[..i + 1] == tokens[..i + 1];
      assert forall p :: PairCount(next, p) == PairCount(tokens[..i + 1], p) + (if key == p then 1 else 0);
      i := i + 1;
    }
    assert tokens[..i + 1] == tokens;
  }

  /**
   * `max_by_key` over the count map: iteration order is unspecified, and the
   * last maximum in that order is returned, so any pair of maximal count may be chosen.
   */
  method SelectMaxPair(counts: map<Pair, nat>) returns (best: Option<Pair>)
    ensures best.None? <==> counts == map[]
    ensures best.Some? ==> best.value in counts
    ensures best.Some? ==> forall q :: q in counts ==> counts[q] <= counts[best.value]
  {
    best := None;
    var rest := counts.Keys;
    while rest != {}
      invariant rest <= counts.Keys
      invariant best.None? <==> rest == counts.Keys
      invariant best.Some? ==> best.value in counts
      invariant best.Some? ==> forall q :: q in counts.Keys - rest ==> counts[q] <= counts[best.value]
      decreases rest
    {
      var q :| q in rest;
      if best.None? || counts[q] >= counts[best.value] {
        best := Some(q);
      }
      rest := rest - {q};
    }
    if best.None? {
      assert counts == map[];
    }
  }

  /** The rewrite loop of `train`: builds a new list, consuming two tokens per match. */
  method MergePair(tokens: seq<Token>, p: Pair) returns (newTokens: seq<Token>)
    ensures newTokens == MergeAll(tokens, p)
  {
    newTokens := [];
    var i := 0;
    while i < |tokens|
      invariant 0 <= i <= |tokens|
      invariant newTokens + MergeAll(tokens[i..], p) == MergeAll(tokens, p)
    {
      MergeAllAt(tokens, p, i);
      if i < |tokens| - 1 && tokens[i] == p.0 && tokens[i + 1] == p.1 {
        assert newTokens + [Merged(p)] + MergeAll(tokens[i + 2..], p) == newTokens + ([Merged(p)] + MergeAll(tokens[i + 2..], p));
        newTokens := newTokens + [Merged(p)];
        i := i + 2;
      } else {
        assert newTokens + [tokens[i]] + MergeAll(tokens[i + 1..], p) == newTokens + ([tokens[i]] + MergeAll(tokens[i + 1..], p));
        newTokens := newTokens + [tokens[i]];
        i := i + 1;
      }
    }
  }

  /**
   * The rewrite loop of `encode`: splices the merged token into the list in
   * place and steps back one position after each merge. With non-empty parts
   * the merged token can match neither side of the pair, so this computes the
   * same left-to-right non-overlapping rewrite as training.
   */
  method SpliceMerges(tokens: seq<Token>, p: Pair) returns (result: seq<Token>)
    requires |p.0| > 0 && |p.1| > 0
    ensures result == MergeAll(tokens, p)
  {
    result := tokens;
    var i := 0;
    while i + 1 < |result|  // i < tokens.len().saturating_sub(1)
      invariant 0 <= i <= |result|
      invariant result[..i] + MergeAll(result[i..], p) == MergeAll(tokens, p)
      decreases |result|, |result| - i
    {
      if result[i] == p.0 && result[i + 1] == p.1 {
        SpliceStep(result, p, i);
        result := result[..i] + [Merged(p)] + result[i + 2..];
        i := if i == 0 then 0 else i - 1;  // i.saturating_sub(1)
      } else {
        MergeAllAt(result, p, i);
        assert result[..i] + [result[i]] == result[..i + 1];
        i := i + 1;
      }
    }
    assert |result[i..]| < 2;
    assert result[..i] + result[i..] == result;
  }

  /** A token that cannot start the pair is kept by the rewrite. */
  lemma MergeAllCons(x: Token, rest: seq<Token>, p: Pair)
    requires !(|rest| > 0 && x == p.0 && rest[0] == p.1)
    ensures MergeAll([x] + rest, p) == [x] + MergeAll(rest, p)
  {
    var t := [x] + rest;
    if |t| >= 2 {
      assert t[1..] == rest;
    }
  }

  /** Splicing the merged token in and stepping back one position keeps the splice loop's invariant. */
  lemma SpliceStep(tokens: seq<Token>, p: Pair, i: nat)
    requires |p.0| > 0 && |p.1| > 0
    requires Occurs(tokens, p, i)
    ensures var spliced := tokens[..i] + [Merged(p)] + tokens[i + 2..];
      var j := if i == 0 then 0 else i - 1;
      spliced[..j] + MergeAll(spliced[j..], p) == tokens[..i] + MergeAll(tokens[i..], p)
  {
    var merged := Merged(p);
    var rest := tokens[i + 2..];
    var spliced := tokens[..i] + [merged] + rest;
    assert merged != p.0 && merged != p.1 by {
      assert |merged| == |p.0| + |p.1|;
    }
    MergeAllAt(tokens, p, i);
    MergeAllCons(merged, rest, p);
    var tail := MergeAll(tokens[i..], p);
    assert tail == [merged] + MergeAll(rest, p);
    if i == 0 {
      assert spliced[0..] == [merged] + rest;
      assert spliced[..0] == [] && tokens[..0] == [];
    } else {
      var prev := tokens[i - 1];
      assert spliced[i - 1..] == [prev] + ([merged] + rest);
      MergeAllCons(prev, [merged] + rest, p);
      assert MergeAll(spliced[i - 1..], p) == [prev] + tail;
      assert spliced[..i - 1] == tokens[..i - 1];
      assert tokens[..i - 1] + [prev] == tokens[..i];
    }
  }

  // ---------------------------------------------------------------------------
  // The codec
  // ---------------------------------------------------------------------------

  class ByteLevelBPE {
    var vocab: map<Token, nat>
    var merges: seq<Pair>
    var reverseVocab: map<nat, Token>
    const unkId: nat := UnknownId

    /** The object invariant: inverse maps, `0 -> "<unk>"`, and known merges. */
    ghost predicate Valid()
      reads this
    {
      Inverse(vocab, reverseVocab) &&
      UnknownId in reverseVocab && reverseVocab[UnknownId] == UnknownToken &&
      MergesKnown(vocab, merges)
    }

    /** A codec that knows only the unknown token. */
    constructor ()
      ensures Valid()
      ensures vocab == map[UnknownToken := UnknownId]
      ensures reverseVocab == map[UnknownId := UnknownToken]
      ensures merges == [] && unkId == UnknownId
    {
      vocab := map[UnknownToken := UnknownId];
      reverseVocab := map[UnknownId := UnknownToken];
      merges := [];
    }

    /** The token->id map, for inspection; it holds `<unk> -> 0` and agrees with the id->token map. */
    function Vocab(): (r: map<Token, nat>)
      reads this
      requires Valid()
      ensures UnknownToken in r && r[UnknownToken] == UnknownId
      ensures forall t :: t in r ==> r[t] in reverseVocab && reverseVocab[r[t]] == t
    {
      vocab
    }

    /**
     * Training. After the one-byte tokens of `text` are registered, each round
     * merges a pair of maximal count whose merged token is new. The source
     * loops forever when every maximal pair's token is already known; here at
     * most `fuel` rounds run. `terminated` is true when the source's loop has
     * ended within them: the state reached meets its exit condition. It is
     * false when the fuel ran out in a state where the source's loop goes on,
     * whether or not it would end later. `finalTokens` is the token list when
     * the loop stops, and `rounds` the number of rounds run: all `fuel` of them
     * unless the loop ended, and at least one per recorded merge. A round that
     * records nothing while the loop goes on is one that chose a most frequent
     * pair whose token was already known.
     */
    method Train(text: seq<byte>, vocabSize: nat, fuel: nat)
      returns (terminated: bool, ghost firstId: nat, ghost endId: nat, ghost finalTokens: seq<Token>,
               ghost rounds: nat)
      requires Valid()
      modifies this
      ensures Valid()
      ensures TrainedFrom(old(vocab), old(reverseVocab), old(merges), text, vocabSize,
                          terminated, vocab, reverseVocab, merges, firstId, endId, finalTokens)
      ensures rounds <= fuel && (!terminated ==> rounds == fuel)
      ensures |merges| <= |old(merges)| + rounds
      ensures !terminated && |merges| - |old(merges)| < rounds ==>
                SkippedRound(old(vocab).Keys + UniqueBytes(text), text, merges, |old(merges)|)
    {
      var v, rv, ms;
      terminated, v, rv, ms, firstId, endId, finalTokens, rounds :=
        TrainMaps(vocab, reverseVocab, merges, text, vocabSize, fuel);
      vocab := v;
      reverseVocab := rv;
      merges := ms;
    }

    /** Encoding: replay the merges in training order, then map tokens to ids (0 when unknown). */
    method Encode(text: seq<byte>) returns (ids: seq<nat>)
      requires Valid()
      ensures ids == EncodeIds(vocab, merges, text)
      ensures |ids| <= |text|
      ensures forall i :: 0 <= i < |ids| ==> ids[i] in reverseVocab
      ensures text == [] ==> ids == []
    {
      var tokens := SingleBytes(text);
      for k := 0 to |merges|
        invariant Replay(tokens, merges[k..]) == Replay(SingleBytes(text), merges)
      {
        assert merges[k..][1..] == merges[k + 1..];
        tokens := SpliceMerges(tokens, merges[k]);
      }
      assert merges[|merges|..] == [];
      var v := vocab;
      ids := seq(|tokens|, j requires 0 <= j < |tokens| => if tokens[j] in v then v[tokens[j]] else unkId);
      EncodeLength(vocab, merges, text);
      EncodeIdsMapped(vocab, reverseVocab, merges, text);
      if text == [] {
        EncodeEmpty(vocab, merges);
      }
    }

    /** Decoding: the concatenated byte strings of the ids, `<unk>` bytes for unmapped ids. */
    method Decode(ids: seq<nat>) returns (bytes: seq<byte>)
      ensures bytes == DecodeBytes(reverseVocab, ids)
    {
      bytes := [];
      for k := 0 to |ids|
        invariant bytes == DecodeBytes(reverseVocab, ids[..k])
      {
        assert ids[..k + 1][..k] == ids[..k];
        if ids[k] in reverseVocab {
          bytes := bytes + reverseVocab[ids[k]];
        } else {
          bytes := bytes + UnknownToken;
        }
      }
      assert ids[..|ids|] == ids;
    }
  }

  /**
   * What one call of `train` guarantees, relating the maps and merges before
   * (`v0`, `rv0`, `ms0`) to those after (`v`, `rv`, `ms`).
   */
  ghost predicate TrainedFrom(
    v0: map<Token, nat>, rv0: map<nat, Token>, ms0: seq<Pair>, text: seq<byte>, vocabSize: nat,
    terminated: bool, v: map<Token, nat>, rv: map<nat, Token>, ms: seq<Pair>,
    firstId: nat, endId: nat, finalTokens: seq<Token>)
  {
    // no entry is removed or reassigned, and nothing is lost from the merge list
    (forall t :: t in v0 ==> t in v && v[t] == v0[t]) &&
    |ms0| <= |ms| && ms[..|ms0|] == ms0 &&
    // new ids are consecutive and start just above the largest old id
    firstId >= 1 && firstId - 1 in rv0 &&
    (forall id :: id in rv0 ==> id < firstId) &&
    AddsIdRange(rv0.Keys, rv.Keys, firstId, endId) &&
    // every byte of the text is a token
    (forall i :: 0 <= i < |text| ==> [text[i]] in v) &&
    // each new merge produced a new token, with an id above those of earlier merges
    (forall j :: |ms0| <= j < |ms| ==> Merged(ms[j]) !in v0) &&
    MergeIdsIncreasing(v, ms, |ms0|) &&
    // every byte (and every old token) has a smaller id than each new merge's token
    RegisteredFirst(v, v0.Keys + UniqueBytes(text), ms, |ms0|) &&
    // the keys are the old ones, the bytes of the text and the tokens of the new merges
    KeysFrom(v, v0.Keys + UniqueBytes(text), ms, |ms0|) &&
    // one vocabulary entry per byte not known before and per recorded merge
    |v| == |v0.Keys + UniqueBytes(text)| + (|ms| - |ms0|) &&
    // merges run only while the size is within the target, so it ends at most one above it
    (|v0.Keys + UniqueBytes(text)| <= vocabSize || |ms| > |ms0| ==> |v| <= vocabSize + 1) &&
    // the final token list spells the text, uses only known tokens and is what the new merges give
    Concat(finalTokens) == text && AllKnown(v, finalTokens) &&
    finalTokens == Replay(SingleBytes(text), ms[|ms0|..]) &&
    // each new merge was a most frequent pair of the token list of its round
    GreedyMerges(text, ms, |ms0|) &&
    // the loop has ended exactly when the vocabulary is over the target or no pair is left
    (terminated <==> |v| > vocabSize || |finalTokens| < 2)
  }

  /**
   * The body of `train` on the values of the maps: register the bytes, then
   * run the merge loop; the caller stores the results in its fields.
   */
  method TrainMaps(v0: map<Token, nat>, rv0: map<nat, Token>, ms0: seq<Pair>, text: seq<byte>, vocabSize: nat, fuel: nat)
    returns (terminated: bool, v: map<Token, nat>, rv: map<nat, Token>, ms: seq<Pair>,
             ghost firstId: nat, ghost endId: nat, ghost finalTokens: seq<Token>, ghost rounds: nat)
    requires Inverse(v0, rv0) && UnknownId in rv0 && rv0[UnknownId] == UnknownToken && MergesKnown(v0, ms0)
    ensures Inverse(v, rv) && UnknownId in rv && rv[UnknownId] == UnknownToken && MergesKnown(v, ms)
    ensures TrainedFrom(v0, rv0, ms0, text, vocabSize, terminated, v, rv, ms, firstId, endId, finalTokens)
    ensures rounds <= fuel && (!terminated ==> rounds == fuel)
    ensures |ms| <= |ms0| + rounds
    ensures !terminated && |ms| - |ms0| < rounds ==> SkippedRound(v0.Keys + UniqueBytes(text), text, ms, |ms0|)
  {
    var tokens := SingleBytes(text);
    var currentId;
    v, rv, currentId, firstId := StartTraining(v0, rv0, ms0, text, vocabSize);
    ghost var registered := v.Keys;
    terminated, v, rv, ms, currentId, tokens, rounds :=
      MergeRounds(text, vocabSize, fuel, v, rv, ms0, currentId, tokens, v0, rv0, ms0, registered, firstId);
    TrainFinal(v0, rv0, ms0, text, registered, vocabSize, firstId, terminated, v, rv, ms, currentId, tokens);
    endId := currentId;
    finalTokens := tokens;
  }

  /**
   * The start of `train`: the next id is one above the largest id in use, and
   * every distinct byte of the text is registered.
   */
  method StartTraining(v0: map<Token, nat>, rv0: map<nat, Token>, ms0: seq<Pair>, text: seq<byte>, vocabSize: nat)
    returns (v: map<Token, nat>, rv: map<nat, Token>, nextId: nat, ghost firstId: nat)
    requires Inverse(v0, rv0) && UnknownId in rv0 && rv0[UnknownId] == UnknownToken && MergesKnown(v0, ms0)
    ensures firstId >= 1 && firstId - 1 in rv0 && forall id :: id in rv0 ==> id < firstId
    ensures v.Keys == v0.Keys + UniqueBytes(text)
    ensures TrainInv(v0, rv0, ms0, text, v.Keys, vocabSize, firstId, v, rv, ms0, nextId, SingleBytes(text))
  {
    var maxId := MaxId(rv0.Keys);
    var startId := maxId + 1;
    firstId := startId;
    v, rv, nextId := RegisterBytes(text, v0, rv0, startId);
    RegisteredStart(v0, rv0, ms0, text, vocabSize, v, rv, firstId, nextId);
  }

  /** Registering the distinct bytes of the text, each unknown one with the next id. */
  method RegisterBytes(text: seq<byte>, v0: map<Token, nat>, rv0: map<nat, Token>, firstId: nat)
    returns (v: map<Token, nat>, rv: map<nat, Token>, nextId: nat)
    requires Inverse(v0, rv0)
    requires forall id :: id in rv0 ==> id < firstId
    ensures Inverse(v, rv)
    ensures firstId <= nextId
    ensures forall id :: id in rv ==> id < nextId
    ensures AddsIdRange(rv0.Keys, rv.Keys, firstId, nextId)
    ensures forall t :: t in v0 ==> t in v && v[t] == v0[t]
    ensures v.Keys == v0.Keys + UniqueBytes(text)
  {
    v, rv, nextId := v0, rv0, firstId;
    // the set is visited in an unspecified order
    var pending := UniqueBytes(text);
    while pending != {}
      invariant pending <= UniqueBytes(text)
      invariant Inverse(v, rv)
      invariant firstId <= nextId
      invariant forall id :: id in rv ==> id < nextId
      invariant AddsIdRange(rv0.Keys, rv.Keys, firstId, nextId)
      invariant forall t :: t in v0 ==> t in v && v[t] == v0[t]
      invariant v.Keys == v0.Keys + (UniqueBytes(text) - pending)
      decreases pending
    {
      var b :| b in pending;
      if b !in v {
        v := v[b := nextId];
        rv := rv[nextId := b];
        nextId := nextId + 1;
      }
      pending := pending - {b};
    }
  }

  /** The id part of the merge loop's invariant: inverse maps, `0 -> <unk>`, fresh consecutive ids. */
  ghost predicate IdsInv(rv0: map<nat, Token>, firstId: nat, v: map<Token, nat>, rv: map<nat, Token>, nextId: nat) {
    Inverse(v, rv) && UnknownId in rv && rv[UnknownId] == UnknownToken &&
    (forall id :: id in rv ==> id < nextId) && firstId <= nextId &&
    AddsIdRange(rv0.Keys, rv.Keys, firstId, nextId)
  }

  /** The growth part: old entries kept, merges only appended, one entry per merge. */
  ghost predicate GrowthInv(v0: map<Token, nat>, ms0: seq<Pair>, registered: set<Token>, vocabSize: nat,
                            v: map<Token, nat>, ms: seq<Pair>) {
    (forall t :: t in v0 ==> t in v && v[t] == v0[t]) &&
    registered <= v.Keys &&
    |ms0| <= |ms| && ms[..|ms0|] == ms0 &&
    |v| == |registered| + (|ms| - |ms0|) &&
    (|registered| <= vocabSize || |ms| > |ms0| ==> |v| <= vocabSize + 1)
  }

  /** The merge part: known merges, each new one with a new token and a larger id. */
  ghost predicate MergeInv(v0: map<Token, nat>, ms0: seq<Pair>, v: map<Token, nat>, ms: seq<Pair>) {
    MergesKnown(v, ms) &&
    (forall j :: |ms0| <= j < |ms| ==> Merged(ms[j]) !in v0) &&
    MergeIdsIncreasing(v, ms, |ms0|)
  }

  /** `p` occurs in the list, and no pair occurs more often. */
  ghost predicate MostFrequent(tokens: seq<Token>, p: Pair) {
    PairCount(tokens, p) > 0 && forall q :: PairCount(tokens, q) <= PairCount(tokens, p)
  }

  /**
   * Every merge from index `from` on was a most frequent pair of the token
   * list that the merges before it (from `from` on) had produced from the text.
   */
  ghost predicate GreedyMerges(text: seq<byte>, ms: seq<Pair>, from: nat)
    requires from <= |ms|
  {
    forall k :: from <= k < |ms| ==> MostFrequent(Replay(SingleBytes(text), ms[from..k]), ms[k])
  }

  /** `t` is known at round `k`: a registered token, or the token of a merge recorded before that round. */
  ghost predicate KnownAtRound(registered: set<Token>, ms: seq<Pair>, from: nat, k: nat, t: Token) {
    t in registered || exists j :: from <= j < k && j < |ms| && t == Merged(ms[j])
  }

  /**
   * Some round, reached after the merges `ms[from..k]`, chose a most frequent
   * pair whose merged token was already known, and so recorded nothing.
   */
  ghost predicate SkippedRound(registered: set<Token>, text: seq<byte>, ms: seq<Pair>, from: nat) {
    exists k, p :: from <= k <= |ms| && MostFrequent(Replay(SingleBytes(text), ms[from..k]), p) &&
                   KnownAtRound(registered, ms, from, k, Merged(p))
  }

  /** The token part: the list spells the text, is known, and is what the new merges give. */
  ghost predicate TokensInv(ms0: seq<Pair>, text: seq<byte>, v: map<Token, nat>, ms: seq<Pair>, tokens: seq<Token>)
    requires |ms0| <= |ms|
  {
    Concat(tokens) == text && AllKnown(v, tokens) &&
    tokens == Replay(SingleBytes(text), ms[|ms0|..]) &&
    GreedyMerges(text, ms, |ms0|)
  }

  /** What the merge loop of `train` keeps, from one round to the next. */
  ghost predicate TrainInv(
    v0: map<Token, nat>, rv0: map<nat, Token>, ms0: seq<Pair>, text: seq<byte>,
    registered: set<Token>, vocabSize: nat, firstId: nat,
    v: map<Token, nat>, rv: map<nat, Token>, ms: seq<Pair>, nextId: nat, tokens: seq<Token>)
  {
    IdsInv(rv0, firstId, v, rv, nextId) &&
    GrowthInv(v0, ms0, registered, vocabSize, v, ms) &&
    MergeInv(v0, ms0, v, ms) &&
    KeysFrom(v, registered, ms, |ms0|) &&
    RegisteredFirst(v, registered, ms, |ms0|) &&
    TokensInv(ms0, text, v, ms, tokens)
  }

  /** The merge loop's invariant holds once the bytes are registered. */
  lemma RegisteredStart(v0: map<Token, nat>, rv0: map<nat, Token>, ms0: seq<Pair>, text: seq<byte>, vocabSize: nat,
                        v: map<Token, nat>, rv: map<nat, Token>, firstId: nat, nextId: nat)
    requires Inverse(v0, rv0) && UnknownId in rv0 && rv0[UnknownId] == UnknownToken && MergesKnown(v0, ms0)
    requires forall id :: id in rv0 ==> id < firstId
    requires Inverse(v, rv) && firstId <= nextId && (forall id :: id in rv ==> id < nextId)
    requires AddsIdRange(rv0.Keys, rv.Keys, firstId, nextId)
    requires forall t :: t in v0 ==> t in v && v[t] == v0[t]
    requires v.Keys == v0.Keys + UniqueBytes(text)
    ensures TrainInv(v0, rv0, ms0, text, v.Keys, vocabSize, firstId, v, rv, ms0, nextId, SingleBytes(text))
  {
    var tokens := SingleBytes(text);
    assert |v| == |v.Keys|;
    assert AllKnown(v, tokens) by {
      forall t | t in tokens ensures t in v && |t| > 0 {
        var i :| 0 <= i < |tokens| && tokens[i] == t;
        assert t in UniqueBytes(text);
      }
    }
    assert ms0[|ms0|..] == [];
    assert ms0[..|ms0|] == ms0;
  }

  /**
   * The merge loop of `train`: at most `fuel` rounds, each one counting the
   * adjacent pairs, choosing one of maximal count and, when its merged token is
   * new, recording the merge, giving the token the next id and rewriting the list.
   */
  method MergeRounds(text: seq<byte>, vocabSize: nat, fuel: nat,
                     v1: map<Token, nat>, rv1: map<nat, Token>, ms1: seq<Pair>, nextId1: nat, tokens1: seq<Token>,
                     ghost v0: map<Token, nat>, ghost rv0: map<nat, Token>, ghost ms0: seq<Pair>,
                     ghost registered: set<Token>, ghost firstId: nat)
    returns (terminated: bool, v: map<Token, nat>, rv: map<nat, Token>, ms: seq<Pair>, nextId: nat, tokens: seq<Token>,
             ghost rounds: nat)
    requires TrainInv(v0, rv0, ms0, text, registered, vocabSize, firstId, v1, rv1, ms1, nextId1, tokens1)
    ensures TrainInv(v0, rv0, ms0, text, registered, vocabSize, firstId, v, rv, ms, nextId, tokens)
    ensures terminated <==> |v| > vocabSize || |tokens| < 2
    ensures rounds <= fuel && (!terminated ==> rounds == fuel)
    ensures |ms1| <= |ms| <= |ms1| + rounds
    ensures !terminated && |ms| - |ms1| < rounds ==> SkippedRound(registered, text, ms, |ms0|)
  {
    v, rv, ms, nextId, tokens := v1, rv1, ms1, nextId1, tokens1;
    terminated := false;
    var steps := fuel;
    rounds := 0;
    while steps > 0
      invariant TrainInv(v0, rv0, ms0, text, registered, vocabSize, firstId,
                         v, rv, ms, nextId, tokens)
      invariant rounds + steps == fuel
      invariant |ms1| <= |ms| <= |ms1| + rounds
      invariant |ms| - |ms1| < rounds ==> SkippedRound(registered, text, ms, |ms0|)
      decreases steps
    {
      if !(|v| <= vocabSize) {
        terminated := true;
        break;
      }
      steps := steps - 1;
      rounds := rounds + 1;
      var counts := CountPairs(tokens);
      var best := SelectMaxPair(counts);
      if best.None? {
        NoPairLeft(tokens);
        terminated := true;
        break;
      }
      var pair := best.value;
      var newToken := Merged(pair);
      assert MostFrequent(tokens, pair) by {
        forall q ensures PairCount(tokens, q) <= PairCount(tokens, pair) {
          if q in counts {
            assert counts[q] <= counts[pair];
          }
        }
      }
      if newToken in v {
        SkipRound(v0, rv0, ms0, text, registered, vocabSize, firstId, v, rv, ms, nextId, tokens, pair);
        continue;
      }
      if |ms| - |ms1| < rounds - 1 {
        SkippedExtend(registered, text, ms, |ms0|, pair);
      }
      RecordMerge(v0, rv0, ms0, text, registered, vocabSize, firstId,
                  v, rv, ms, nextId, tokens, pair);
      ms := ms + [pair];
      v := v[newToken := nextId];
      rv := rv[nextId := newToken];
      nextId := nextId + 1;
      tokens := MergePair(tokens, pair);
    }
    // the fuel ran out: the source's loop stops at its next check if its exit condition holds
    if !terminated && (|v| > vocabSize || |tokens| < 2) {
      terminated := true;
    }
  }

  /** A round whose most frequent pair has a known token is a skipped round. */
  lemma SkipRound(
    v0: map<Token, nat>, rv0: map<nat, Token>, ms0: seq<Pair>, text: seq<byte>,
    registered: set<Token>, vocabSize: nat, firstId: nat,
    v: map<Token, nat>, rv: map<nat, Token>, ms: seq<Pair>, nextId: nat, tokens: seq<Token>, pair: Pair)
    requires TrainInv(v0, rv0, ms0, text, registered, vocabSize, firstId, v, rv, ms, nextId, tokens)
    requires MostFrequent(tokens, pair) && Merged(pair) in v
    ensures SkippedRound(registered, text, ms, |ms0|)
  {
    assert ms[|ms0|..|ms|] == ms[|ms0|..];
    assert MostFrequent(Replay(SingleBytes(text), ms[|ms0|..|ms|]), pair);
    assert KnownAtRound(registered, ms, |ms0|, |ms|, Merged(pair));
  }

  /** A skipped round stays one when a merge is appended. */
  lemma SkippedExtend(registered: set<Token>, text: seq<byte>, ms: seq<Pair>, from: nat, pair: Pair)
    requires SkippedRound(registered, text, ms, from)
    ensures SkippedRound(registered, text, ms + [pair], from)
  {
    var ms' := ms + [pair];
    var k, p :| from <= k <= |ms| && MostFrequent(Replay(SingleBytes(text), ms[from..k]), p) &&
                KnownAtRound(registered, ms, from, k, Merged(p));
    assert ms'[from..k] == ms[from..k];
    if Merged(p) !in registered {
      var j :| from <= j < k && j < |ms| && Merged(p) == Merged(ms[j]);
      assert ms'[j] == ms[j];
    }
    assert KnownAtRound(registered, ms', from, k, Merged(p));
  }

  /** What the merge loop's invariant gives once the loop stops. */
  lemma TrainFinal(
    v0: map<Token, nat>, rv0: map<nat, Token>, ms0: seq<Pair>, text: seq<byte>,
    registered: set<Token>, vocabSize: nat, firstId: nat, terminated: bool,
    v: map<Token, nat>, rv: map<nat, Token>, ms: seq<Pair>, nextId: nat, tokens: seq<Token>)
    requires TrainInv(v0, rv0, ms0, text, registered, vocabSize, firstId, v, rv, ms, nextId, tokens)
    requires registered == v0.Keys + UniqueBytes(text)
    requires firstId >= 1 && firstId - 1 in rv0 && forall id :: id in rv0 ==> id < firstId
    requires terminated <==> |v| > vocabSize || |tokens| < 2
    ensures Inverse(v, rv) && UnknownId in rv && rv[UnknownId] == UnknownToken && MergesKnown(v, ms)
    ensures TrainedFrom(v0, rv0, ms0, text, vocabSize, terminated, v, rv, ms, firstId, nextId, tokens)
  {
    forall i | 0 <= i < |text| ensures [text[i]] in v {
      assert [text[i]] in UniqueBytes(text);
    }
  }

  /** An empty pair count means the token list has no adjacent pair. */
  lemma NoPairLeft(tokens: seq<Token>)
    requires forall p :: PairCount(tokens, p) == 0
    ensures |tokens| < 2
  {
    if |tokens| >= 2 {
      assert Occurs(tokens, (tokens[0], tokens[1]), 0);
      PairCountOccurs(tokens, (tokens[0], tokens[1]));
    }
  }

  /** Recording a merge of an occurring pair whose token is new keeps the loop invariant of `train`. */
  lemma RecordMerge(
    v0: map<Token, nat>, rv0: map<nat, Token>, ms0: seq<Pair>, text: seq<byte>,
    registered: set<Token>, vocabSize: nat, firstId: nat,
    v: map<Token, nat>, rv: map<nat, Token>, ms: seq<Pair>, nextId: nat, tokens: seq<Token>, pair: Pair)
    requires TrainInv(v0, rv0, ms0, text, registered, vocabSize, firstId, v, rv, ms, nextId, tokens)
    requires |v| <= vocabSize
    requires MostFrequent(tokens, pair)
    requires Merged(pair) !in v
    ensures TrainInv(v0, rv0, ms0, text, registered, vocabSize, firstId,
                     v[Merged(pair) := nextId], rv[nextId := Merged(pair)], ms + [pair], nextId + 1,
                     MergeAll(tokens, pair))
  {
    PairCountOccurs(tokens, pair);
    var at :| Occurs(tokens, pair, at);
    assert tokens[at] in tokens && tokens[at + 1] in tokens;
    RecordIds(rv0, firstId, v, rv, nextId, Merged(pair));
    RecordGrowth(v0, ms0, registered, vocabSize, v, ms, nextId, pair);
    RecordMergeInv(v0, ms0, v, rv, ms, nextId, pair);
    RecordOrder(registered, ms0, v, rv, ms, nextId, pair);
    RecordKeys(registered, ms0, v, ms, nextId, pair);
    RecordTokens(ms0, text, v, ms, tokens, nextId, pair);
  }

  lemma RecordGreedy(ms0: seq<Pair>, text: seq<byte>, ms: seq<Pair>, tokens: seq<Token>, pair: Pair)
    requires |ms0| <= |ms| && GreedyMerges(text, ms, |ms0|)
    requires tokens == Replay(SingleBytes(text), ms[|ms0|..])
    requires MostFrequent(tokens, pair)
    ensures GreedyMerges(text, ms + [pair], |ms0|)
  {
    var ms' := ms + [pair];
    forall k | |ms0| <= k < |ms'|
      ensures MostFrequent(Replay(SingleBytes(text), ms'[|ms0|..k]), ms'[k])
    {
      if k == |ms| {
        assert ms'[|ms0|..k] == ms[|ms0|..];
      } else {
        assert ms'[|ms0|..k] == ms[|ms0|..k];
        assert ms'[k] == ms[k];
      }
    }
  }

  lemma RecordIds(rv0: map<nat, Token>, firstId: nat, v: map<Token, nat>, rv: map<nat, Token>, nextId: nat, t: Token)
    requires IdsInv(rv0, firstId, v, rv, nextId)
    requires t !in v
    ensures IdsInv(rv0, firstId, v[t := nextId], rv[nextId := t], nextId + 1)
  {
  }

  lemma RecordGrowth(v0: map<Token, nat>, ms0: seq<Pair>, registered: set<Token>, vocabSize: nat,
                     v: map<Token, nat>, ms: seq<Pair>, nextId: nat, pair: Pair)
    requires GrowthInv(v0, ms0, registered, vocabSize, v, ms)
    requires |v| <= vocabSize && Merged(pair) !in v
    ensures GrowthInv(v0, ms0, registered, vocabSize, v[Merged(pair) := nextId], ms + [pair])
  {
    assert (ms + [pair])[..|ms0|] == ms[..|ms0|];
  }

  lemma RecordMergeInv(v0: map<Token, nat>, ms0: seq<Pair>, v: map<Token, nat>, rv: map<nat, Token>,
                       ms: seq<Pair>, nextId: nat, pair: Pair)
    requires MergeInv(v0, ms0, v, ms)
    requires Inverse(v, rv) && (forall id :: id in rv ==> id < nextId)
    requires (forall t :: t in v0 ==> t in v)
    requires Merged(pair) !in v && |pair.0| > 0 && |pair.1| > 0
    ensures MergeInv(v0, ms0, v[Merged(pair) := nextId], ms + [pair])
  {
    var v', ms' := v[Merged(pair) := nextId], ms + [pair];
    assert MergesKnown(v', ms');
    forall j, k | |ms0| <= j < k < |ms'| && Merged(ms'[j]) in v' && Merged(ms'[k]) in v'
      ensures v'[Merged(ms'[j])] < v'[Merged(ms'[k])]
    {
      assert ms'[j] == ms[j];
      assert Merged(ms[j]) in v;
      if k < |ms| {
        assert ms'[k] == ms[k];
      } else {
        assert v[Merged(ms[j])] in rv;
      }
    }
    forall j | |ms0| <= j < |ms'| ensures Merged(ms'[j]) !in v0 {
      if j < |ms| {
        assert ms'[j] == ms[j];
      }
    }
  }

  lemma RecordOrder(registered: set<Token>, ms0: seq<Pair>, v: map<Token, nat>, rv: map<nat, Token>,
                    ms: seq<Pair>, nextId: nat, pair: Pair)
    requires RegisteredFirst(v, registered, ms, |ms0|)
    requires registered <= v.Keys
    requires Inverse(v, rv) && (forall id :: id in rv ==> id < nextId)
    requires Merged(pair) !in v
    ensures RegisteredFirst(v[Merged(pair) := nextId], registered, ms + [pair], |ms0|)
  {
    var v', ms' := v[Merged(pair) := nextId], ms + [pair];
    forall t, j | t in registered && t in v' && |ms0| <= j < |ms'| && Merged(ms'[j]) in v'
      ensures v'[t] < v'[Merged(ms'[j])]
    {
      assert v'[t] == v[t] && v[t] in rv;
      if j < |ms| && Merged(ms[j]) != Merged(pair) {
        assert ms'[j] == ms[j];
      }
    }
  }

  lemma RecordKeys(registered: set<Token>, ms0: seq<Pair>, v: map<Token, nat>, ms: seq<Pair>,
                   nextId: nat, pair: Pair)
    requires |ms0| <= |ms| && KeysFrom(v, registered, ms, |ms0|)
    ensures KeysFrom(v[Merged(pair) := nextId], registered, ms + [pair], |ms0|)
  {
    var ms' := ms + [pair];
    forall t | t in v[Merged(pair) := nextId]
      ensures t in registered || exists j :: |ms0| <= j < |ms'| && t == Merged(ms'[j])
    {
      if t == Merged(pair) {
        assert t == Merged(ms'[|ms|]);
      } else if t !in registered {
        var j :| |ms0| <= j < |ms| && t == Merged(ms[j]);
        assert ms'[j] == ms[j];
      }
    }
  }

  lemma RecordTokens(ms0: seq<Pair>, text: seq<byte>, v: map<Token, nat>, ms: seq<Pair>,
                     tokens: seq<Token>, nextId: nat, pair: Pair)
    requires |ms0| <= |ms|
    requires TokensInv(ms0, text, v, ms, tokens)
    requires Merged(pair) !in v && |pair.0| > 0
    requires MostFrequent(tokens, pair)
    ensures TokensInv(ms0, text, v[Merged(pair) := nextId], ms + [pair], MergeAll(tokens, pair))
  {
    RecordGreedy(ms0, text, ms, tokens, pair);
    var v' := v[Merged(pair) := nextId];
    MergeAllPreservesBytes(tokens, pair);
    MergeAllKnown(v', tokens, pair);
    assert (ms + [pair])[|ms0|..] == ms[|ms0|..] + [pair];
    ReplayAppend(SingleBytes(text), ms[|ms0|..], pair);
  }

  // ---------------------------------------------------------------------------
  // How many merges training can record, and training on "abab" twice
  // ---------------------------------------------------------------------------

  /** Merging a most frequent pair shortens the list, since the pair occurs. */
  lemma MergeShortens(tokens: seq<Token>, p: Pair)
    requires MostFrequent(tokens, p)
    ensures |MergeAll(tokens, p)| < |tokens|
  {
    PairCountOccurs(tokens, p);
    MergeAllLength(tokens, p);
  }

  /** Each greedy merge rewrites a pair that occurs, so it shortens the token list by at least one. */
  lemma {:induction false} GreedyShortens(text: seq<byte>, ms: seq<Pair>, from: nat, k: nat)
    requires from <= k <= |ms| && GreedyMerges(text, ms, from)
    ensures |Replay(SingleBytes(text), ms[from..k])| + (k - from) <= |text|
    decreases k
  {
    var start := SingleBytes(text);
    if k == from {
      assert ms[from..k] == [];
    } else {
      GreedyShortens(text, ms, from, k - 1);
      var done, m := ms[from..k - 1], ms[k - 1];
      SliceSnoc(ms, from, k);
      ReplayAppend(start, done, m);
      var before := Replay(start, done);
      assert MostFrequent(before, m);
      MergeShortens(before, m);
    }
  }

  /**
   * One call of `train` records at most as many merges as the text has bytes
   * less the final tokens, so fewer merges than bytes for a non-empty text.
   */
  lemma TrainedMergeBound(
    v0: map<Token, nat>, rv0: map<nat, Token>, ms0: seq<Pair>, text: seq<byte>, vocabSize: nat,
    terminated: bool, v: map<Token, nat>, rv: map<nat, Token>, ms: seq<Pair>,
    firstId: nat, endId: nat, finalTokens: seq<Token>)
    requires TrainedFrom(v0, rv0, ms0, text, vocabSize, terminated, v, rv, ms, firstId, endId, finalTokens)
    ensures (|ms| - |ms0|) + |finalTokens| <= |text|
    ensures text != [] ==> |ms| - |ms0| < |text|
  {
    var n := |ms0|;
    assert n <= |ms| && GreedyMerges(text, ms, n);
    GreedyShortens(text, ms, n, |ms|);
    assert ms[n..|ms|] == ms[n..];
    assert finalTokens == Replay(SingleBytes(text), ms[n..]);
    assert Concat(finalTokens) == text;
  }

  /** Training on the empty text records no merge and always reports that the loop ended, whatever the fuel. */
  lemma TrainEmptyEnds(
    v0: map<Token, nat>, rv0: map<nat, Token>, ms0: seq<Pair>, vocabSize: nat,
    terminated: bool, v: map<Token, nat>, rv: map<nat, Token>, ms: seq<Pair>,
    firstId: nat, endId: nat, finalTokens: seq<Token>)
    requires TrainedFrom(v0, rv0, ms0, [], vocabSize, terminated, v, rv, ms, firstId, endId, finalTokens)
    ensures terminated && ms == ms0 && finalTokens == []
  {
    TrainedMergeBound(v0, rv0, ms0, [], vocabSize, terminated, v, rv, ms, firstId, endId, finalTokens);
    assert ms == ms[..|ms0|];
  }

  /** The bytes of the ASCII text "abab". */
  const Abab: seq<byte> := [97, 98, 97, 98]

  /** The distinct bytes of "abab" are `a` and `b`. */
  lemma AbabBytes()
    ensures UniqueBytes(Abab) == {[97], [98]}
  {
    assert [Abab[0]] == [97] && [Abab[1]] == [98];
    forall t | t in UniqueBytes(Abab) ensures t == [97] || t == [98] {
      var i :| 0 <= i < |Abab| && t == [Abab[i]];
    }
  }

  /** In "abab", `(a, b)` occurs twice and every other pair at most once. */
  lemma AbabCounts()
    ensures PairCount(SingleBytes(Abab), ([97], [98])) == 2
    ensures forall q :: q != ([97], [98]) ==> PairCount(SingleBytes(Abab), q) <= 1
  {
    var t := SingleBytes(Abab);
    assert t == [[97], [98], [97], [98]];
    var t3, t2, t1 := t[..3], t[..2], t[..1];
    assert t3[..2] == t2 && t2[..1] == t1;
    forall q
      ensures PairCount(t, q) == (if q == ([97], [98]) then 2 else if q == ([98], [97]) then 1 else 0)
    {
      assert PairCount(t1, q) == 0;
      assert PairCount(t2, q) == (if q == ([97], [98]) then 1 else 0);
      assert PairCount(t3, q) == PairCount(t2, q) + (if q == ([98], [97]) then 1 else 0);
      assert PairCount(t, q) == PairCount(t3, q) + (if q == ([97], [98]) then 1 else 0);
    }
  }

  /** The only most frequent pair of "abab" as one-byte tokens is `(a, b)`. */
  lemma AbabMostFrequent(p: Pair)
    requires MostFrequent(SingleBytes(Abab), p)
    ensures p == ([97], [98])
  {
    AbabCounts();
    assert PairCount(SingleBytes(Abab), ([97], [98])) <= PairCount(SingleBytes(Abab), p);
  }

  /** Whatever the state before, the first merge a call of `train` on "abab" records is `(a, b)`. */
  lemma AbabFirstMerge(
    v0: map<Token, nat>, rv0: map<nat, Token>, ms0: seq<Pair>, vocabSize: nat,
    terminated: bool, v: map<Token, nat>, rv: map<nat, Token>, ms: seq<Pair>,
    firstId: nat, endId: nat, finalTokens: seq<Token>)
    requires TrainedFrom(v0, rv0, ms0, Abab, vocabSize, terminated, v, rv, ms, firstId, endId, finalTokens)
    ensures |ms| > |ms0| ==> ms[|ms0|] == ([97], [98]) && Merged(ms[|ms0|]) == [97, 98]
  {
    if |ms| > |ms0| {
      var k := |ms0|;
      assert ms[k..k] == [];
      assert MostFrequent(Replay(SingleBytes(Abab), ms[k..k]), ms[k]);
      AbabMostFrequent(ms[k]);
    }
  }

  /**
   * A new codec trained on "abab" to the target 10, until the loop ends,
   * knows `a`, `b` and `ab` and is still within the target.
   */
  lemma TrainAbabLearnsAb(v: map<Token, nat>, rv: map<nat, Token>, ms: seq<Pair>,
                          firstId: nat, endId: nat, finalTokens: seq<Token>)
    requires TrainedFrom(map[UnknownToken := UnknownId], map[UnknownId := UnknownToken], [], Abab, 10,
                         true, v, rv, ms, firstId, endId, finalTokens)
    requires MergesKnown(v, ms)
    ensures [97] in v && [98] in v && [97, 98] in v && |v| <= 10
  {
    var v0: map<Token, nat> := map[UnknownToken := UnknownId];
    AbabBytes();
    assert |v0.Keys + UniqueBytes(Abab)| == 3 by {
      assert |UnknownToken| == 5;
      assert v0.Keys + UniqueBytes(Abab) == {UnknownToken, [97], [98]};
    }
    assert |v| == 3 + |ms|;
    TrainedMergeBound(v0, map[UnknownId := UnknownToken], [], Abab, 10, true, v, rv, ms, firstId, endId, finalTokens);
    assert finalTokens != [];
    assert ms[0..] == ms;
    assert |ms| == 0 ==> |finalTokens| == 4;
    assert |ms| > 0;
    AbabFirstMerge(v0, map[UnknownId := UnknownToken], [], 10, true, v, rv, ms, firstId, endId, finalTokens);
    assert Merged(ms[0]) in v;
  }

  /**
   * Training on "abab" again, with `a`, `b` and `ab` known and the vocabulary
   * within the target: `(a, b)` is the only most frequent pair and its token is
   * known, so no round records anything and the loop never ends, however many
   * rounds run (with `Train`'s contract, all `fuel` of them).
   */
  lemma RetrainAbabStalls(
    v0: map<Token, nat>, rv0: map<nat, Token>, ms0: seq<Pair>, vocabSize: nat,
    terminated: bool, v: map<Token, nat>, rv: map<nat, Token>, ms: seq<Pair>,
    firstId: nat, endId: nat, finalTokens: seq<Token>)
    requires TrainedFrom(v0, rv0, ms0, Abab, vocabSize, terminated, v, rv, ms, firstId, endId, finalTokens)
    requires [97] in v0 && [98] in v0 && [97, 98] in v0 && |v0| <= vocabSize
    ensures !terminated && v == v0 && ms == ms0 && finalTokens == SingleBytes(Abab)
  {
    AbabFirstMerge(v0, rv0, ms0, vocabSize, terminated, v, rv, ms, firstId, endId, finalTokens);
    assert |ms| == |ms0|;
    assert ms == ms[..|ms0|];
    assert ms[|ms0|..] == [];
    AbabBytes();
    assert v0.Keys + UniqueBytes(Abab) == v0.Keys;
    assert v.Keys == v0.Keys by {
      var extra := v.Keys - v0.Keys;
      assert v.Keys == v0.Keys + extra;
      assert v0.Keys * extra == {};
      assert |v.Keys| == |v0.Keys| + |extra|;
      assert |v| == |v.Keys| && |v0| == |v0.Keys|;
    }
  }
}
