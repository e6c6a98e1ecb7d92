/** Recovery phrases: a seed and its checksum as twenty five words, and back. */
module Phrase {
  import opened Machine
  import opened Bits
  import Utf8

  const SEED_LEN: nat := 32
  const PHRASE_CHECKSUM_BITS: nat := 19
  const WORD_BITS: nat := 11
  const PHRASE_WORDS: nat := (SEED_LEN * 8 + PHRASE_CHECKSUM_BITS) / WORD_BITS
  const WORD_WIDTH: nat := 16

  /** The word list, SHA3-256, and the folding of characters outside ASCII. */
  datatype Lexicon = Lexicon(words: seq<string>, digest: Bytes -> Bytes, foldOther: char -> string)

  predicate IsPlainWord(w: string) {
    0 < |w| <= WORD_WIDTH && forall i :: 0 <= i < |w| ==> 'a' <= w[i] <= 'z'
  }

  /** The list is 2048 different plain words; the digest is at least as long as the checksum. */
  ghost predicate Sound(lex: Lexicon) {
    && |lex.words| == 2048
    && NoDuplicates(lex.words)
    && (forall w :: w in lex.words ==> IsPlainWord(w))
    && (forall s :: |lex.digest(s)| == 32)
  }

  // ---- from a seed to its words ----

  /** `checksum_bit` */
  function ChecksumBit(lex: Lexicon, seed: Bytes, i: nat): bit
    requires i / 8 < |lex.digest(seed)|
  {
    ShiftRight(lex.digest(seed)[i / 8], 7 - i % 8) % 2
  }

  function Checksum(lex: Lexicon, seed: Bytes): seq<bit>
    requires |lex.digest(seed)| == 32
  {
    seq(PHRASE_CHECKSUM_BITS, i requires 0 <= i < PHRASE_CHECKSUM_BITS => ChecksumBit(lex, seed, i))
  }

  function SeedBits(lex: Lexicon, seed: Bytes): (b: seq<bit>)
    requires |lex.digest(seed)| == 32
    ensures |b| == |seed| * 8 + PHRASE_CHECKSUM_BITS
  {
    Spread(seed, 8) + Checksum(lex, seed)
  }

  function WordAt(lex: Lexicon, index: nat): string {
    if index < |lex.words| then lex.words[index] else ""
  }

  function WordsAt(lex: Lexicon, indices: seq<nat>): (words: seq<string>)
    ensures |words| == |indices|
  {
    seq(|indices|, i requires 0 <= i < |indices| => WordAt(lex, indices[i]))
  }

  function PhraseWords(lex: Lexicon, seed: Bytes): seq<string>
    requires |lex.digest(seed)| == 32
  {
    WordsAt(lex, Gather(SeedBits(lex, seed), WORD_BITS))
  }

  function JoinedBySpace(words: seq<string>): string {
    if words == [] then ""
    else if |words| == 1 then words[0]
    else JoinedBySpace(words[..|words| - 1]) + " " + words[|words| - 1]
  }

  /** Pushing `(n >> shift) & 1` for every shift from `k - 1` down to zero. */
  method PushBits(bits: seq<bit>, n: nat, k: nat) returns (r: seq<bit>)
    ensures r == bits + ToBits(n, k)
  {
    r := bits;
    for shift := k downto 0
      invariant r == bits + ToBits(ShiftRight(n, shift), k - shift)
    {
      ShiftOneMore(n, shift);
      ghost var top := ToBits(ShiftRight(n, shift + 1), k - shift - 1);
      assert bits + top + [ShiftRight(n, shift) % 2] == bits + (top + [ShiftRight(n, shift) % 2]);
      r := r + [ShiftRight(n, shift) % 2];
    }
    assert ShiftLeft(n, 0) == n;
    ShiftIs(n, 0, n, 0);
  }

  /** `fold(0, |acc, &bit| (acc << 1) | bit)` */
  method FoldBits(bits: seq<bit>) returns (acc: nat)
    ensures acc == Number(bits) < Pow2(|bits|)
  {
    acc := 0;
    for i := 0 to |bits|
      invariant acc == Number(bits[..i])
    {
      assert bits[..i + 1][..i] == bits[..i];
      acc := 2 * acc + bits[i];
    }
    assert bits[..|bits|] == bits;
    BitsOfNumber(bits);
  }

  /** The bits of every byte in turn. */
  method BytesToBits(bytes: Bytes) returns (bits: seq<bit>)
    ensures bits == Spread(bytes, 8)
  {
    hide Spread, ToBits;
    bits := Spread([], 8);
    for i := 0 to |bytes|
      invariant bits == Spread(bytes[..i], 8)
    {
      SpreadOneMore(bytes[..i], bytes[i], 8);
      assert bytes[..i + 1] == bytes[..i] + [bytes[i]];
      bits := PushBits(bits, bytes[i], 8);
    }
    assert bytes[..|bytes|] == bytes;
  }

  /** `mnemonic_from_seed` */
  method MnemonicFromSeed(lex: Lexicon, seed: Bytes) returns (phrase: string)
    requires Sound(lex) && |seed| == SEED_LEN
    ensures phrase == JoinedBySpace(PhraseWords(lex, seed))
  {
    hide Spread, Gather, ToBits, Number, Pow2, JoinedBySpace;
    var bits := BytesToBits(seed);
    for i := 0 to PHRASE_CHECKSUM_BITS
      invariant bits == Spread(seed, 8) + Checksum(lex, seed)[..i]
    {
      bits := bits + [ChecksumBit(lex, seed, i)];
    }
    assert bits == SeedBits(lex, seed);
    phrase := PhraseOfBits(lex, bits);
  }

  /** The word of every group of eleven bits, with blanks between them. */
  method PhraseOfBits(lex: Lexicon, bits: seq<bit>) returns (phrase: string)
    requires Sound(lex) && |bits| == PHRASE_WORDS * WORD_BITS
    ensures phrase == JoinedBySpace(WordsAt(lex, Gather(bits, WORD_BITS)))
  {
    hide Gather, ToBits, Number, Pow2, JoinedBySpace, WordsAt;
    NoWords(lex);
    Pow2Of11();
    phrase := "";
    for k := 0 to PHRASE_WORDS
      invariant phrase == JoinedBySpace(WordsAt(lex, Gather(bits[..k * WORD_BITS], WORD_BITS)))
      invariant phrase == "" <==> k == 0
    {
      var group := bits[k * WORD_BITS..(k + 1) * WORD_BITS];
      var index := FoldBits(group);
      assert lex.words[index] in lex.words;
      assert bits[..(k + 1) * WORD_BITS] == bits[..k * WORD_BITS] + group;
      GatherOneMore(bits[..k * WORD_BITS], group, WORD_BITS);
      WordsOneMore(lex, Gather(bits[..k * WORD_BITS], WORD_BITS), index);
      if phrase != "" {
        phrase := phrase + " ";
      }
      phrase := phrase + lex.words[index];
    }
    assert bits[..PHRASE_WORDS * WORD_BITS] == bits;
  }

  lemma NoWords(lex: Lexicon)
    ensures WordsAt(lex, Gather([], WORD_BITS)) == [] && JoinedBySpace([]) == ""
  {
  }

  lemma WordsOneMore(lex: Lexicon, indices: seq<nat>, index: nat)
    requires index < |lex.words|
    ensures var before, after := WordsAt(lex, indices), WordsAt(lex, indices + [index]);
            && after == before + [lex.words[index]]
            && JoinedBySpace(after)
               == (if before == [] then lex.words[index] else JoinedBySpace(before) + " " + lex.words[index])
  {
    var before, after := WordsAt(lex, indices), WordsAt(lex, indices + [index]);
    assert after == before + [lex.words[index]];
    assert after[..|before|] == before;
  }

  // ---- looking a word up without branching on it ----

  function Position(words: seq<string>, word: string): (r: Option<nat>)
    ensures r.Some? ==> r.value < |words| && words[r.value] == word && word !in words[..r.value]
    ensures r.None? ==> word !in words
  {
    if words == [] then None
    else if words[0] == word then Some(0)
    else
      match Position(words[1..], word)
      case None => None
      case Some(k) => Some(k + 1)
  }

  /** The bytes in a field of fixed width, zeros after them; what does not fit is cut off. */
  function Padded(b: Bytes): (p: Bytes)
    ensures |p| == WORD_WIDTH
  {
    seq(WORD_WIDTH, i requires 0 <= i < WORD_WIDTH => if i < |b| then b[i] else 0)
  }

  /** Differences gathered from every byte of two padded fields. */
  method Difference(a: Bytes, b: Bytes, lengthsDiffer: bool) returns (diff: byte)
    requires |a| == |b| == WORD_WIDTH
    ensures diff == 0 <==> !lengthsDiffer && a == b
  {
    diff := if lengthsDiffer then 1 else 0;
    Pow2Of8();
    for i := 0 to WORD_WIDTH
      invariant diff == 0 <==> !lengthsDiffer && a[..i] == b[..i]
    {
      XorFits(a[i], b[i], 8);
      OrFits(diff, Xor(a[i], b[i]), 8);
      XorTellsApart(a[i], b[i]);
      OrIsZero(diff, Xor(a[i], b[i]));
      assert a[..i + 1] == a[..i] + [a[i]] && b[..i + 1] == b[..i] + [b[i]];
      diff := Or(diff, Xor(a[i], b[i]));
    }
    assert a[..WORD_WIDTH] == a && b[..WORD_WIDTH] == b;
  }

  lemma PaddedTellsApart(candidate: string, word: string)
    requires |Utf8.EncodeAll(word)| <= WORD_WIDTH
    ensures var c, w := Utf8.EncodeAll(candidate), Utf8.EncodeAll(word);
            candidate == word <==> |c| == |w| && Padded(c) == Padded(w)
  {
    hide Utf8.EncodeAll, Utf8.Decode;
    var c, w := Utf8.EncodeAll(candidate), Utf8.EncodeAll(word);
    if |c| == |w| && Padded(c) == Padded(w) {
      assert forall i :: 0 <= i < |w| ==> c[i] == Padded(c)[i] == Padded(w)[i] == w[i];
      assert c == w;
      Utf8.DecodeIsInverse(c, candidate);
      Utf8.DecodeIsInverse(w, word);
    }
  }

  /** `(u16::from(diff).wrapping_sub(1) >> 8) as u8 & 1` */
  function ZeroFlag(diff: byte): (flag: bit)
    ensures flag == 1 <==> diff == 0
  {
    (diff + 0x1_0000 - 1) % 0x1_0000 / 256 % 256 % 2
  }

  /** `0usize.wrapping_sub(flag)`: all ones or none */
  function Mask(flag: bit): nat {
    (0x1_0000_0000_0000_0000 - flag) % 0x1_0000_0000_0000_0000
  }

  lemma MaskSelects(index: u64, flag: bit)
    ensures And(index, Mask(flag)) == if flag == 1 then index else 0
  {
    hide And, Pow2;
    Pow2Of64();
    AndWithOnes(index, 64);
    NoBits(index);
  }

  lemma NoBits(a: nat)
    ensures And(a, 0) == 0
  {
  }

  /** `word_index`: the same answer as a plain search, for words no wider than the field. */
  method WordIndex(words: seq<string>, word: string) returns (r: Option<nat>)
    requires NoDuplicates(words) && |words| <= U64_MAX
    ensures r == if |Utf8.EncodeAll(word)| <= WORD_WIDTH then Position(words, word) else None
  {
    hide Utf8.EncodeAll, And, Or, Padded, ZeroFlag, Mask;
    var bytes := Utf8.EncodeAll(word);
    var entered := Padded(bytes);
    var fits := |bytes| <= WORD_WIDTH;
    var found: nat, hit: nat := 0, 0;
    for index := 0 to |words|
      invariant fits ==> hit == if word in words[..index] then 1 else 0
      invariant fits ==> found < index || found == 0
      invariant fits && hit == 1 ==> found < index && words[found] == word
      invariant hit == 0 ==> found == 0
      invariant hit <= 1
    {
      var candidate := Utf8.EncodeAll(words[index]);
      var diff := Difference(Padded(candidate), entered, |candidate| != |bytes|);
      var equal := ZeroFlag(diff);
      if fits {
        PaddedTellsApart(words[index], word);
      }
      MaskSelects(index, equal);
      OrWithZero(if equal == 1 then index else found);
      OrFits(hit, equal, 1);
      OrIsZero(hit, equal);
      assert words[..index + 1] == words[..index] + [words[index]];
      if fits && equal == 1 {
        assert word !in words[..index];
      }
      found := Or(found, And(index, Mask(equal)));
      hit := Or(hit, equal);
    }
    assert words[..|words|] == words;
    return if hit == 1 && fits then Some(found) else None;
  }

  // ---- the text of a phrase ----

  /** `normalized_phrase` */
  function Folded(lex: Lexicon, phrase: string): string {
    if phrase == [] then []
    else
      var c := phrase[|phrase| - 1];
      Folded(lex, phrase[..|phrase| - 1]) + (if c as int < 128 then [AsciiLower(c)] else lex.foldOther(c))
  }

  /** Unicode's White_Space property */
  predicate IsWhitespace(c: char) {
    var x := c as int;
    || 0x09 <= x <= 0x0D || x == 0x20 || x == 0x85 || x == 0xA0 || x == 0x1680
    || 0x2000 <= x <= 0x200A || x == 0x2028 || x == 0x2029 || x == 0x202F || x == 0x205F || x == 0x3000
  }

  /** `split_whitespace`, with `current` the part of a word already passed. */
  function SplitFrom(t: string, current: string): seq<string> {
    if t == [] then (if current == [] then [] else [current])
    else if !IsWhitespace(t[0]) then SplitFrom(t[1..], current + [t[0]])
    else if current == [] then SplitFrom(t[1..], [])
    else [current] + SplitFrom(t[1..], [])
  }

  function SplitWhitespace(t: string): seq<string> {
    SplitFrom(t, [])
  }

  method NormalizedPhrase(lex: Lexicon, phrase: string) returns (folded: string)
    ensures folded == Folded(lex, phrase)
  {
    folded := "";
    for i := 0 to |phrase|
      invariant folded == Folded(lex, phrase[..i])
    {
      assert phrase[..i + 1][..i] == phrase[..i];
      if phrase[i] as int < 128 {
        folded := folded + [AsciiLower(phrase[i])];
      } else {
        folded := folded + lex.foldOther(phrase[i]);
      }
    }
    assert phrase[..|phrase|] == phrase;
  }

  predicate IsPlainText(t: string) {
    forall i :: 0 <= i < |t| ==> 'a' <= t[i] <= 'z' || t[i] == ' '
  }

  lemma {:induction false} FoldingKeepsPlainText(lex: Lexicon, t: string)
    requires IsPlainText(t)
    ensures Folded(lex, t) == t
  {
    if t != [] {
      FoldingKeepsPlainText(lex, t[..|t| - 1]);
      assert t == t[..|t| - 1] + [t[|t| - 1]];
    }
  }

  lemma {:induction false} SplitAtBlank(a: string, b: string, current: string)
    ensures SplitFrom(a + " " + b, current) == SplitFrom(a, current) + SplitFrom(b, [])
  {
    var t := a + " " + b;
    if a == [] {
      assert t == " " + b && t[1..] == b;
    } else {
      assert t[1..] == a[1..] + " " + b;
      SplitAtBlank(a[1..], b, if IsWhitespace(a[0]) then [] else current + [a[0]]);
    }
  }

  lemma {:induction false} SplitOneWord(w: string, current: string)
    requires forall i :: 0 <= i < |w| ==> 'a' <= w[i] <= 'z'
    requires w != [] || current != []
    ensures SplitFrom(w, current) == [current + w]
  {
    if w == [] {
      assert current + w == current;
    } else {
      SplitOneWord(w[1..], current + [w[0]]);
      assert current + [w[0]] + w[1..] == current + w;
    }
  }

  lemma NothingToSplit()
    ensures SplitFrom([], []) == []
  {
  }

  lemma {:induction false} JoinedIsSplit(words: seq<string>)
    requires forall w :: w in words ==> IsPlainWord(w)
    ensures IsPlainText(JoinedBySpace(words)) && SplitWhitespace(JoinedBySpace(words)) == words
  {
    hide SplitFrom;
    if words == [] {
      NothingToSplit();
    } else {
      var front, last := words[..|words| - 1], words[|words| - 1];
      assert last in words;
      assert words == front + [last];
      JoinedIsSplit(front);
      SplitOneWord(last, []);
      assert [] + last == last;
      if front != [] {
        SplitAtBlank(JoinedBySpace(front), last, []);
      }
    }
  }

  // ---- from words to the seed ----

  predicate InList(lex: Lexicon, entered: seq<string>) {
    forall i :: 0 <= i < |entered| ==> Position(lex.words, entered[i]).Some?
  }

  function Indices(lex: Lexicon, entered: seq<string>): (indices: seq<nat>)
    requires InList(lex, entered)
    ensures |indices| == |entered|
  {
    seq(|entered|, i requires 0 <= i < |entered| => Position(lex.words, entered[i]).value)
  }

  /** The seed in the first bits, if the rest are its checksum. */
  ghost function SeedOfBits(lex: Lexicon, bits: seq<bit>): Option<Bytes>
    requires Sound(lex) && |bits| == PHRASE_WORDS * WORD_BITS
  {
    SpreadOfGather(bits[..SEED_LEN * 8], 8, SEED_LEN);
    Pow2Of8();
    var seed: Bytes := Gather(bits[..SEED_LEN * 8], 8);
    if bits[SEED_LEN * 8..] == Checksum(lex, seed) then Some(seed) else None
  }

  /** What `seed_from_mnemonic` gives for the words entered; refusals carry no reason. */
  ghost function Restored(lex: Lexicon, entered: seq<string>): Option<Bytes>
    requires Sound(lex)
  {
    if |entered| != PHRASE_WORDS || !InList(lex, entered) then None
    else SeedOfBits(lex, Spread(Indices(lex, entered), WORD_BITS))
  }

  lemma {:induction false} PlainWordsFit(w: string)
    requires forall i :: 0 <= i < |w| ==> 'a' <= w[i] <= 'z'
    ensures |Utf8.EncodeAll(w)| == |w|
  {
    if w != [] {
      PlainWordsFit(w[1..]);
    }
  }

  lemma ListedWordsFit(lex: Lexicon, word: string)
    requires Sound(lex) && Position(lex.words, word).Some?
    ensures |Utf8.EncodeAll(word)| <= WORD_WIDTH
  {
    assert word in lex.words;
    PlainWordsFit(word);
  }

  /** The number of every group of eight bits; an accumulator of one byte loses nothing. */
  method BitsToBytes(bits: seq<bit>) returns (bytes: Bytes)
    requires |bits| == SEED_LEN * 8
    ensures bytes == Gather(bits, 8)
  {
    hide Gather, Number, Pow2;
    Pow2Of8();
    NoGroups();
    bytes := [];
    for k := 0 to SEED_LEN
      invariant bytes == Gather(bits[..k * 8], 8)
    {
      var group := bits[k * 8..(k + 1) * 8];
      var n := FoldBits(group);
      assert bits[..(k + 1) * 8] == bits[..k * 8] + group;
      GatherOneMore(bits[..k * 8], group, 8);
      bytes := bytes + [n];
    }
    assert bits[..SEED_LEN * 8] == bits;
  }

  lemma NoGroups()
    ensures Gather([], 8) == []
  {
  }

  /** `seed_from_mnemonic` */
  method SeedFromMnemonic(lex: Lexicon, phrase: string) returns (r: Option<Bytes>)
    requires Sound(lex)
    ensures r == Restored(lex, SplitWhitespace(Folded(lex, phrase)))
  {
    hide Sound, SeedOfBits, Spread, InList, SplitFrom, Folded;
    var folded := NormalizedPhrase(lex, phrase);
    var entered := SplitWhitespace(folded);
    var bits := BitsOfWords(lex, entered);
    if bits.None? || |entered| != PHRASE_WORDS {
      return None;
    }
    r := SeedFromBits(lex, bits.value);
  }

  /** The end of `seed_from_mnemonic`: the seed's bytes and its checksum. */
  method SeedFromBits(lex: Lexicon, bits: seq<bit>) returns (r: Option<Bytes>)
    requires Sound(lex) && |bits| == PHRASE_WORDS * WORD_BITS
    ensures r == SeedOfBits(lex, bits)
  {
    hide Gather, ChecksumBit;
    var seed := BitsToBytes(bits[..SEED_LEN * 8]);
    ghost var rest := bits[SEED_LEN * 8..];
    for i := 0 to PHRASE_CHECKSUM_BITS
      invariant rest[..i] == Checksum(lex, seed)[..i]
    {
      assert bits[SEED_LEN * 8 + i] == rest[i];
      if bits[SEED_LEN * 8 + i] != ChecksumBit(lex, seed, i) {
        assert rest[i] != Checksum(lex, seed)[i];
        return None;
      }
    }
    assert rest[..PHRASE_CHECKSUM_BITS] == rest;
    return Some(seed);
  }

  /** The word loop: eleven bits for every word, if all are in the list. */
  method BitsOfWords(lex: Lexicon, entered: seq<string>) returns (r: Option<seq<bit>>)
    requires Sound(lex)
    ensures r == if InList(lex, entered) then Some(Spread(Indices(lex, entered), WORD_BITS)) else None
  {
    hide Spread, ToBits, Position, Utf8.EncodeAll;
    var bits: seq<bit> := Spread([], WORD_BITS);
    for i := 0 to |entered|
      invariant InList(lex, entered[..i]) && bits == Spread(Indices(lex, entered[..i]), WORD_BITS)
    {
      var index := WordIndex(lex.words, entered[i]);
      if index.None? {
        if Position(lex.words, entered[i]).Some? {
          ListedWordsFit(lex, entered[i]);
        }
        assert !InList(lex, entered);
        return None;
      }
      assert entered[..i + 1] == entered[..i] + [entered[i]];
      assert Indices(lex, entered[..i + 1]) == Indices(lex, entered[..i]) + [index.value];
      SpreadOneMore(Indices(lex, entered[..i]), index.value, WORD_BITS);
      bits := PushBits(bits, index.value, WORD_BITS);
    }
    assert entered[..|entered|] == entered;
    return Some(bits);
  }

  // ---- phrases and seeds correspond ----

  lemma PositionOfListed(lex: Lexicon, k: nat)
    requires NoDuplicates(lex.words) && k < |lex.words|
    ensures Position(lex.words, lex.words[k]) == Some(k)
  {
  }

  lemma IndicesOfWords(lex: Lexicon, indices: seq<nat>)
    requires Sound(lex) && forall i :: 0 <= i < |indices| ==> indices[i] < |lex.words|
    ensures InList(lex, WordsAt(lex, indices)) && Indices(lex, WordsAt(lex, indices)) == indices
    ensures forall w :: w in WordsAt(lex, indices) ==> IsPlainWord(w)
  {
    hide Position;
    forall i | 0 <= i < |indices|
      ensures Position(lex.words, WordsAt(lex, indices)[i]) == Some(indices[i])
    {
      PositionOfListed(lex, indices[i]);
    }
    assert forall i :: 0 <= i < |indices| ==> lex.words[indices[i]] in lex.words;
  }

  lemma WordsOfIndices(lex: Lexicon, entered: seq<string>)
    requires Sound(lex) && InList(lex, entered)
    ensures WordsAt(lex, Indices(lex, entered)) == entered
    ensures forall i :: 0 <= i < |entered| ==> Indices(lex, entered)[i] < 2048
  {
    hide Position;
  }

  lemma SeedGroups(lex: Lexicon, seed: Bytes)
    requires Sound(lex) && |seed| == SEED_LEN
    ensures var groups := Gather(SeedBits(lex, seed), WORD_BITS);
            && |groups| == PHRASE_WORDS
            && Spread(groups, WORD_BITS) == SeedBits(lex, seed)
            && forall i :: 0 <= i < |groups| ==> groups[i] < 2048
  {
    Pow2Of11();
    hide Spread, Gather, Pow2, ToBits, Number;
    SpreadOfGather(SeedBits(lex, seed), WORD_BITS, PHRASE_WORDS);
  }

  lemma SeedOfBitsIsInverse(lex: Lexicon, bits: seq<bit>, seed: Bytes)
    requires Sound(lex) && |seed| == SEED_LEN && |bits| == PHRASE_WORDS * WORD_BITS
    ensures SeedOfBits(lex, bits) == Some(seed) <==> bits == SeedBits(lex, seed)
  {
    Pow2Of8();
    hide Spread, Gather, Pow2, Checksum;
    var first, rest := bits[..SEED_LEN * 8], bits[SEED_LEN * 8..];
    assert bits == first + rest;
    SpreadOfGather(first, 8, SEED_LEN);
    GatherOfSpread(seed, 8);
    if bits == SeedBits(lex, seed) {
      assert first == Spread(seed, 8) && rest == Checksum(lex, seed);
    }
  }

  lemma BitsMatchWords(lex: Lexicon, entered: seq<string>, seed: Bytes)
    requires Sound(lex) && |seed| == SEED_LEN && |entered| == PHRASE_WORDS && InList(lex, entered)
    ensures Spread(Indices(lex, entered), WORD_BITS) == SeedBits(lex, seed) <==> entered == PhraseWords(lex, seed)
  {
    Pow2Of11();
    WordsOfIndices(lex, entered);
    SeedGroups(lex, seed);
    hide Spread, Gather, Pow2, InList, Indices, WordsAt, SeedBits;
    GatherOfSpread(Indices(lex, entered), WORD_BITS);
    IndicesOfWords(lex, Gather(SeedBits(lex, seed), WORD_BITS));
  }

  /** Words restore a seed exactly when they are the words of that seed. */
  lemma RestoredIsInverse(lex: Lexicon, entered: seq<string>, seed: Bytes)
    requires Sound(lex) && |seed| == SEED_LEN
    ensures Restored(lex, entered) == Some(seed) <==> entered == PhraseWords(lex, seed)
  {
    SeedGroups(lex, seed);
    hide Spread, Gather, SeedBits, SeedOfBits, InList;
    IndicesOfWords(lex, Gather(SeedBits(lex, seed), WORD_BITS));
    if |entered| == PHRASE_WORDS && InList(lex, entered) {
      SeedOfBitsIsInverse(lex, Spread(Indices(lex, entered), WORD_BITS), seed);
      BitsMatchWords(lex, entered, seed);
    }
  }

  /** The phrase printed for a seed restores that seed, and no other seed prints it. */
  lemma PhraseRoundTrip(lex: Lexicon, seed: Bytes, other: Bytes)
    requires Sound(lex) && |seed| == |other| == SEED_LEN
    ensures var phrase := JoinedBySpace(PhraseWords(lex, seed));
            && Restored(lex, SplitWhitespace(Folded(lex, phrase))) == Some(seed)
            && (phrase == JoinedBySpace(PhraseWords(lex, other)) ==> seed == other)
  {
    hide Spread, Gather, Restored, SplitWhitespace, SplitFrom, Folded, JoinedBySpace, WordsAt, SeedBits;
    forall s: Bytes | s == seed || s == other
      ensures Restored(lex, SplitWhitespace(Folded(lex, JoinedBySpace(PhraseWords(lex, s))))) == Some(s)
    {
      SeedGroups(lex, s);
      IndicesOfWords(lex, Gather(SeedBits(lex, s), WORD_BITS));
      JoinedIsSplit(PhraseWords(lex, s));
      FoldingKeepsPlainText(lex, JoinedBySpace(PhraseWords(lex, s)));
      RestoredIsInverse(lex, PhraseWords(lex, s), s);
    }
  }

  // ---- what a phrase is, bit by bit ----

  /** The checksum is the first 19 bits of the digest, each byte's highest bit first. */
  lemma ChecksumIsDigestFront(lex: Lexicon, seed: Bytes)
    requires |lex.digest(seed)| == 32
    ensures Checksum(lex, seed) == Spread(lex.digest(seed), 8)[..19]
  {
    var digest := lex.digest(seed);
    hide Spread, ToBits, ShiftRight;
    forall i | 0 <= i < 19
      ensures Checksum(lex, seed)[i] == Spread(digest, 8)[i]
    {
      SpreadAt(digest, 8, i / 8);
      ToBitsAt(digest[i / 8], 8, i % 8);
      assert Spread(digest, 8)[i / 8 * 8..i / 8 * 8 + 8][i % 8] == Spread(digest, 8)[i];
    }
  }

  /** A phrase has 25 words; each one's place in the list is the number eleven bits spell. */
  lemma WordsAreElevenBits(lex: Lexicon, seed: Bytes, i: nat)
    requires Sound(lex) && |seed| == 32 && i < 25
    ensures |PhraseWords(lex, seed)| == 25
    ensures var bits := Spread(seed, 8) + Spread(lex.digest(seed), 8)[..19];
            && |bits| == 275 && Number(bits[11 * i..11 * i + 11]) < 2048
            && PhraseWords(lex, seed)[i] == lex.words[Number(bits[11 * i..11 * i + 11])]
  {
    hide Spread, Gather, Number, Checksum;
    ChecksumIsDigestFront(lex, seed);
    SeedGroups(lex, seed);
    GatherAt(SeedBits(lex, seed), 11, 25, i);
  }

  // ---- how a phrase may be typed ----

  /** The words with these gaps before, between and after them. */
  function Spaced(words: seq<string>, gaps: seq<string>): string
    requires |gaps| == |words| + 1
  {
    if words == [] then gaps[0] else gaps[0] + (words[0] + Spaced(words[1..], gaps[1..]))
  }

  predicate AllWhitespace(t: string) {
    forall i :: 0 <= i < |t| ==> IsWhitespace(t[i])
  }

  predicate NoWhitespace(t: string) {
    forall i :: 0 <= i < |t| ==> !IsWhitespace(t[i])
  }

  /** Gaps of whitespace, none of them missing between two words. */
  ghost predicate Separate(gaps: seq<string>, n: nat) {
    && |gaps| == n + 1
    && (forall i :: 0 <= i <= n ==> AllWhitespace(gaps[i]))
    && forall i :: 0 < i < n ==> gaps[i] != []
  }

  /** The 25 characters Unicode calls White_Space. */
  lemma WhitespaceIsWhiteSpace(c: char)
    ensures IsWhitespace(c) <==>
              c as int in {9, 10, 11, 12, 13, 32, 0x85, 0xA0, 0x1680, 0x2000, 0x2001, 0x2002, 0x2003, 0x2004, 0x2005, 0x2006,
                           0x2007, 0x2008, 0x2009, 0x200A, 0x2028, 0x2029, 0x202F, 0x205F, 0x3000}
  {
  }

  lemma {:induction false} GapIsSkipped(gap: string, t: string)
    requires AllWhitespace(gap)
    ensures SplitFrom(gap + t, []) == SplitFrom(t, [])
  {
    if gap == [] {
      assert gap + t == t;
    } else {
      assert (gap + t)[1..] == gap[1..] + t;
      GapIsSkipped(gap[1..], t);
    }
  }

  lemma {:induction false} WordIsTaken(w: string, t: string, current: string)
    requires NoWhitespace(w) && current + w != [] && (t != [] ==> IsWhitespace(t[0]))
    ensures SplitFrom(w + t, current) == [current + w] + SplitFrom(t, [])
  {
    if w == [] {
      assert w + t == t && current + w == current;
    } else {
      assert (w + t)[1..] == w[1..] + t;
      WordIsTaken(w[1..], t, current + [w[0]]);
      assert current + [w[0]] + w[1..] == current + w;
    }
  }

  /** Splitting finds the words whatever whitespace is around them, and however much of it. */
  lemma {:induction false} SpacedIsSplit(words: seq<string>, gaps: seq<string>)
    requires Separate(gaps, |words|)
    requires forall i :: 0 <= i < |words| ==> words[i] != [] && NoWhitespace(words[i])
    ensures SplitWhitespace(Spaced(words, gaps)) == words
    decreases |words|
  {
    hide SplitFrom, IsWhitespace;
    if words == [] {
      GapIsSkipped(gaps[0], []);
      assert gaps[0] + [] == gaps[0];
      NothingToSplit();
    } else {
      var rest := Spaced(words[1..], gaps[1..]);
      GapIsSkipped(gaps[0], words[0] + rest);
      RestStarts(words, gaps);
      WordIsTaken(words[0], rest, []);
      assert [] + words[0] == words[0];
      SpacedIsSplit(words[1..], gaps[1..]);
      assert words == [words[0]] + words[1..];
    }
  }

  lemma RestStarts(words: seq<string>, gaps: seq<string>)
    requires words != [] && Separate(gaps, |words|)
    ensures var rest := Spaced(words[1..], gaps[1..]); rest != [] ==> IsWhitespace(rest[0])
  {
    hide IsWhitespace;
    var gap := gaps[1];
    assert AllWhitespace(gap);
    assert |words| > 1 ==> gap != [];
    if gap != [] {
      assert IsWhitespace(gap[0]);
    }
  }

  /** The same text up to capital letters. */
  predicate SameLetters(typed: string, plain: string) {
    |typed| == |plain|
    && forall i :: 0 <= i < |plain| ==>
         plain[i] as int < 128
         && (typed[i] == plain[i] || ('a' <= plain[i] <= 'z' && typed[i] as int == plain[i] as int - 32))
  }

  predicate NoCapitals(t: string) {
    forall i :: 0 <= i < |t| ==> !('A' <= t[i] <= 'Z')
  }

  lemma {:induction false} FoldingIgnoresCapitals(lex: Lexicon, typed: string, plain: string)
    requires SameLetters(typed, plain) && NoCapitals(plain)
    ensures Folded(lex, typed) == plain
  {
    if plain != [] {
      var n := |plain| - 1;
      FoldingIgnoresCapitals(lex, typed[..n], plain[..n]);
      assert plain == plain[..n] + [plain[n]];
    }
  }

  lemma {:induction false} SpacedIsPlain(words: seq<string>, gaps: seq<string>)
    requires |gaps| == |words| + 1 && forall i :: 0 <= i < |words| ==> NoCapitals(words[i])
    requires forall i :: 0 <= i < |gaps| ==> NoCapitals(gaps[i])
    ensures NoCapitals(Spaced(words, gaps))
    decreases |words|
  {
    hide NoCapitals;
    if words != [] {
      SpacedIsPlain(words[1..], gaps[1..]);
      JoinedNoCapitals(words[0], Spaced(words[1..], gaps[1..]));
      JoinedNoCapitals(gaps[0], words[0] + Spaced(words[1..], gaps[1..]));
    }
  }

  lemma JoinedNoCapitals(a: string, b: string)
    requires NoCapitals(a) && NoCapitals(b)
    ensures NoCapitals(a + b)
  {
  }

  lemma GapsArePlain(gap: string)
    requires AllWhitespace(gap)
    ensures NoCapitals(gap)
  {
  }

  /**
   * A phrase may be typed in any capitals and with any ASCII whitespace, between the words and around
   * them: it restores the seed all the same.
   */
  lemma TypedPhraseRestores(lex: Lexicon, seed: Bytes, gaps: seq<string>, typed: string)
    requires Sound(lex) && |seed| == 32 && Separate(gaps, 25)
    requires |PhraseWords(lex, seed)| == 25 && SameLetters(typed, Spaced(PhraseWords(lex, seed), gaps))
    ensures Restored(lex, SplitWhitespace(Folded(lex, typed))) == Some(seed)
  {
    var words := PhraseWords(lex, seed);
    ListedWords(lex, seed);
    forall i | 0 <= i < |gaps|
      ensures NoCapitals(gaps[i])
    {
      GapsArePlain(gaps[i]);
    }
    hide Spread, Gather, Restored, SplitWhitespace, SplitFrom, Folded, SeedBits, IsWhitespace, PhraseWords;
    SpacedIsPlain(words, gaps);
    FoldingIgnoresCapitals(lex, typed, Spaced(words, gaps));
    SpacedIsSplit(words, gaps);
    RestoredIsInverse(lex, words, seed);
  }

  lemma ListedWords(lex: Lexicon, seed: Bytes)
    requires Sound(lex) && |seed| == 32
    ensures forall i :: 0 <= i < |PhraseWords(lex, seed)| ==>
              var w := PhraseWords(lex, seed)[i]; w != [] && NoWhitespace(w) && NoCapitals(w)
  {
    SeedGroups(lex, seed);
    hide Spread, Gather, SeedBits, WordsAt;
    var words := PhraseWords(lex, seed);
    IndicesOfWords(lex, Gather(SeedBits(lex, seed), WORD_BITS));
    forall i | 0 <= i < |words|
      ensures words[i] != [] && NoWhitespace(words[i]) && NoCapitals(words[i])
    {
      assert words[i] in words;
      assert IsPlainWord(words[i]);
    }
  }
}
