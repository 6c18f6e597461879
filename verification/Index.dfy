/** From a box and a word list to the words that can be played and their character masks. */
module Index {
  import opened Words
  import opened Settings
  import opened Puzzle
  import opened Split

  type Bits32 = w: Word | |w| == MASK_BITS witness Zero(MASK_BITS)

  // ----- letters

  function Idx(c: char): (i: nat)
    requires Lower(c)
    ensures i < CHARACTERS
  {
    c as int - FIRST as int
  }

  /** Marks letters that are not in the box; as a word, every box bit is set. */
  const INVALID_CHAR_FLAG: nat := 4095

  lemma InvalidCharFlag()
    ensures ToNat(SOLUTION_MASK) == INVALID_CHAR_FLAG
  {
    LowBitsValue(MASK_BITS, BOX_CHARS);
    assert BOX_CHARS == 12 && Arithmetic.Pow2(12) == 4096;
  }

  lemma {:induction false} LowBitsValue(n: nat, k: nat)
    requires k <= n
    ensures ToNat(LowBits(n, k)) == Arithmetic.Pow2(k) - 1
  {
    if n > 0 {
      assert LowBits(n, k)[1..] == LowBits(n - 1, if k > 0 then k - 1 else 0);
      LowBitsValue(n - 1, if k > 0 then k - 1 else 0);
    }
  }

  /** A letter's index in the box, or the flag. */
  type CompressionIndex = ci: seq<nat>
    | |ci| == CHARACTERS && forall k :: 0 <= k < |ci| ==> ci[k] < BOX_CHARS || ci[k] == INVALID_CHAR_FLAG
    witness seq(CHARACTERS, _ => INVALID_CHAR_FLAG)

  predicate Known(ci: CompressionIndex, c: char) {
    Lower(c) && ci[Idx(c)] < BOX_CHARS
  }

  /** `1 << index`; for a letter outside the box the shift is too wide and yields whatever junk is. */
  function BitFlag(c: char, ci: CompressionIndex, junk: Bits32): Bits32
    requires Lower(c)
  {
    if ci[Idx(c)] < MASK_BITS then OneAt(MASK_BITS, ci[Idx(c)]) else junk
  }

  /** Every letter is mapped to its last place in the box. */
  ghost predicate Compresses(ci: CompressionIndex, box: string) {
    forall c :: Lower(c) ==> Compressed(ci, box, c)
  }

  ghost predicate Compressed(ci: CompressionIndex, box: string, c: char)
    requires Lower(c)
  {
    var i := ci[Idx(c)];
    if c in box then i < |box| && box[i] == c && forall j :: i < j < |box| ==> box[j] != c
    else i == INVALID_CHAR_FLAG
  }

  method GenCompressionIndex(characters: string) returns (compressionIndex: CompressionIndex)
    requires |characters| == BOX_CHARS && Lowercase(characters)
    ensures Compresses(compressionIndex, characters)
  {
    compressionIndex := seq(CHARACTERS, _ => INVALID_CHAR_FLAG);
    for i := 0 to |characters|
      invariant Compresses(compressionIndex, characters[..i])
    {
      ghost var before := compressionIndex;
      compressionIndex := compressionIndex[Idx(characters[i]) := i];
      forall c | Lower(c) ensures Compressed(compressionIndex, characters[..i + 1], c) {
        assert Compressed(before, characters[..i], c);
        assert characters[..i + 1] == characters[..i] + [characters[i]];
        assert Idx(c) == Idx(characters[i]) <==> c == characters[i];
      }
    }
    assert characters[..|characters|] == characters;
  }

  /** For distinct letters the index is the place in the box. */
  lemma PlaceIsIndex(ci: CompressionIndex, box: string, c: char)
    requires IsBox(box) && Compresses(ci, box) && Lower(c)
    ensures Known(ci, c) <==> c in box
    ensures c in box ==> ci[Idx(c)] == Place(box, c)
  {
    assert Compressed(ci, box, c);
  }

  // ----- filter masks

  /** Is bit b one of the letters of the side? */
  predicate OnSide(b: nat, side: nat) {
    b / CHARS_PER_SIDE == side
  }

  method SideMasks() returns (sideMasks: seq<Bits32>)
    ensures |sideMasks| == SIDES
    ensures forall s, b :: 0 <= s < SIDES && 0 <= b < MASK_BITS ==> sideMasks[s][b] == OnSide(b, s)
  {
    var defaultSideMask := Dec(OneAt(MASK_BITS, CHARS_PER_SIDE));
    LowMaskBits(MASK_BITS, CHARS_PER_SIDE);
    sideMasks := [];
    for i := 0 to SIDES
      invariant |sideMasks| == i
      invariant forall s, b :: 0 <= s < i && 0 <= b < MASK_BITS ==> sideMasks[s][b] == OnSide(b, s)
    {
      sideMasks := sideMasks + [ShiftLeft(defaultSideMask, CHARS_PER_SIDE * i)];
    }
  }

  /** A letter's mask has the letters of its side, or every letter when it is not in the box. */
  ghost predicate FilterMask(mask: Bits32, index: nat) {
    forall b :: 0 <= b < MASK_BITS ==>
      mask[b] == if index == INVALID_CHAR_FLAG then b < BOX_CHARS else OnSide(b, index / CHARS_PER_SIDE)
  }

  /** The masks of the letters. */
  ghost predicate FilterMasks(ci: CompressionIndex, masks: seq<Bits32>) {
    |masks| == CHARACTERS && forall k :: 0 <= k < CHARACTERS ==> FilterMask(masks[k], ci[k])
  }

  method GenCharFilterMasks(ci: CompressionIndex) returns (filterFlags: seq<Bits32>)
    ensures FilterMasks(ci, filterFlags)
  {
    var sideMasks := SideMasks();
    var flag: Bits32 := SOLUTION_MASK;
    filterFlags := seq(CHARACTERS, _ => flag);
    for i := 0 to |ci|
      invariant |filterFlags| == CHARACTERS
      invariant forall k :: 0 <= k < i ==> FilterMask(filterFlags[k], ci[k])
    {
      if ci[i] == INVALID_CHAR_FLAG {
        flag := SOLUTION_MASK;
      } else {
        var side := ci[i] / CHARS_PER_SIDE;
        flag := sideMasks[side];
      }
      filterFlags := filterFlags[i := flag];
    }
  }

  /** May b follow a? */
  predicate Follows(ci: CompressionIndex, a: char, b: char)
    requires Lower(a) && Lower(b)
  {
    Known(ci, a) && Known(ci, b) && ci[Idx(a)] / CHARS_PER_SIDE != ci[Idx(b)] / CHARS_PER_SIDE
  }

  /** The overlap test is exact: masks are disjoint iff both letters are in the box, on different sides. */
  lemma OverlapIsExact(ci: CompressionIndex, a: char, b: char, ma: Bits32, mb: Bits32)
    requires Lower(a) && Lower(b) && FilterMask(ma, ci[Idx(a)]) && FilterMask(mb, ci[Idx(b)])
    ensures IsZero(And(ma, mb)) <==> Follows(ci, a, b)
  {
    var i, j := ci[Idx(a)], ci[Idx(b)];
    var k: nat := if i != INVALID_CHAR_FLAG then i else if j != INVALID_CHAR_FLAG then j else 0;
    assert And(ma, mb)[k] == (ma[k] && mb[k]);
  }

  // ----- word masks

  predicate AllKnown(ci: CompressionIndex, w: string) {
    forall k :: 0 <= k < |w| ==> Known(ci, w[k])
  }

  /** The mask of a word's letters. */
  function Hash(ci: CompressionIndex, w: string): Mask
    requires AllKnown(ci, w)
  {
    if w == "" then EMPTY_MASK
    else
      assert Known(ci, w[|w| - 1]);
      var flag: Mask := OneAt(MASK_BITS, ci[Idx(w[|w| - 1])]);
      Join(Hash(ci, w[..|w| - 1]), flag)
  }

  /** Exactly the letters of the word are in its mask. */
  lemma {:induction false} HashBits(ci: CompressionIndex, w: string, b: nat)
    requires b < MASK_BITS && AllKnown(ci, w)
    ensures Hash(ci, w)[b] <==> exists k :: 0 <= k < |w| && Known(ci, w[k]) && ci[Idx(w[k])] == b
  {
    if w != "" {
      var n := |w| - 1;
      HashBits(ci, w[..n], b);
      assert forall k :: 0 <= k < n ==> w[..n][k] == w[k];
    }
  }

  // ----- filtering

  /** The pair test: each letter may follow the one before. */
  predicate Passes(ci: CompressionIndex, w: string)
    requires Lowercase(w)
  {
    forall k :: 0 < k < |w| ==> Follows(ci, w[k - 1], w[k])
  }

  predicate AllLowercase(words: seq<string>) {
    forall k :: 0 <= k < |words| ==> Lowercase(words[k])
  }

  /** The words that are kept. */
  function Kept(ci: CompressionIndex, words: seq<string>): seq<string>
    requires AllLowercase(words)
  {
    if words == [] then []
    else
      var last := words[|words| - 1];
      Kept(ci, words[..|words| - 1]) + if last != "" && Passes(ci, last) then [last] else []
  }

  lemma {:induction false} KeptExact(ci: CompressionIndex, words: seq<string>)
    requires AllLowercase(words)
    ensures forall w :: w in Kept(ci, words) <==> w in words && w != "" && Passes(ci, w)
  {
    if words != [] {
      KeptExact(ci, words[..|words| - 1]);
      assert words == words[..|words| - 1] + [words[|words| - 1]];
    }
  }

  /** A word the pair test lets through is playable, unless it is one letter that is not in the box. */
  lemma KeptIsPlayable(ci: CompressionIndex, box: string, w: string)
    requires IsBox(box) && Compresses(ci, box) && Lowercase(w) && w != ""
    ensures Playable(box, w) <==> Passes(ci, w) && (|w| == 1 ==> w[0] in box)
    ensures |w| >= 2 && Passes(ci, w) ==> AllKnown(ci, w)
    ensures Playable(box, w) ==> AllKnown(ci, w)
  {
    forall k | 0 <= k < |w| ensures Known(ci, w[k]) <==> w[k] in box {
      PlaceIsIndex(ci, box, w[k]);
    }
    forall k | 0 < k < |w|
      ensures Follows(ci, w[k - 1], w[k]) <==>
        w[k - 1] in box && w[k] in box && Side(box, w[k - 1]) != Side(box, w[k])
    {
      PlaceIsIndex(ci, box, w[k - 1]);
      PlaceIsIndex(ci, box, w[k]);
    }
    if |w| >= 2 && Passes(ci, w) {
      forall k | 0 <= k < |w| ensures Known(ci, w[k]) {
        assert Follows(ci, w[if k == 0 then 0 else k - 1], w[if k == 0 then 1 else k]);
      }
    }
  }

  /** A one-letter word is kept whatever its letter: "z" with a box that has no z. */
  lemma ForeignLetterKept(ci: CompressionIndex)
    requires Compresses(ci, "abcdefghijkl")
    ensures IsBox("abcdefghijkl") && Kept(ci, ["z"]) == ["z"] && !Playable("abcdefghijkl", "z")
  {
    var box := "abcdefghijkl";
    assert forall i :: 0 <= i < 12 ==> box[i] as int == FIRST as int + i;
    assert ["z"][..0] == [];
    assert Kept(ci, ["z"]) == Kept(ci, []) + ["z"];
    assert IsBox(box);
    assert "z"[0] !in box;
  }

  lemma FirstLetter(ci: CompressionIndex, word: string, hash: Bits32, junk: Bits32)
    requires word != "" && Lowercase(word) && hash == BitFlag(word[0], ci, junk)
    ensures Lowercase(word[..1])
    ensures Passes(ci, word[..1])
    ensures AllKnown(ci, word[..1]) ==> hash == Hash(ci, word[..1])
  {
    if AllKnown(ci, word[..1]) {
      assert Known(ci, word[..1][0]);
      assert word[..1][..0] == "";
      OrZero(hash);
    }
  }

  lemma NextLetter(ci: CompressionIndex, word: string, i: nat, hash: Bits32, junk: Bits32)
    requires 1 <= i < |word| && Lowercase(word) && Passes(ci, word[..i])
    requires AllKnown(ci, word[..i]) ==> hash == Hash(ci, word[..i])
    ensures Lower(word[i]) && Lower(word[i - 1])
    ensures Lowercase(word[..i + 1])
    ensures Passes(ci, word[..i + 1]) <==> Follows(ci, word[i - 1], word[i])
    ensures !Follows(ci, word[i - 1], word[i]) ==> !Passes(ci, word)
    ensures
      AllKnown(ci, word[..i + 1]) ==> Or(hash, BitFlag(word[i], ci, junk)) == Hash(ci, word[..i + 1])
  {
    var longer := word[..i + 1];
    assert longer[..i] == word[..i] && longer[i] == word[i];
    if AllKnown(ci, longer) {
      assert Known(ci, longer[i]);
      assert forall k :: 0 <= k < i ==> word[..i][k] == longer[k];
      assert AllKnown(ci, word[..i]);
    }
  }

  /** The masks of the words whose letters are all in the box. */
  ghost predicate Hashed(ci: CompressionIndex, words: seq<string>, hashes: seq<Bits32>) {
    |hashes| == |words| && forall k :: 0 <= k < |words| && AllKnown(ci, words[k]) ==> hashes[k] == Hash(ci, words[k])
  }

  /** words and hashes are what is kept of the slices. */
  ghost predicate KeptAndHashed(
    ci: CompressionIndex, slices: seq<string>, words: seq<string>, hashes: seq<Bits32>)
  {
    AllLowercase(slices) && words == Kept(ci, slices) && Hashed(ci, words, hashes)
  }

  lemma SliceDropped(
    ci: CompressionIndex, slices: seq<string>, words: seq<string>, hashes: seq<Bits32>, slice: string)
    requires KeptAndHashed(ci, slices, words, hashes) && Lowercase(slice)
    requires slice == "" || !Passes(ci, slice)
    ensures KeptAndHashed(ci, slices + [slice], words, hashes)
  {
    assert (slices + [slice])[..|slices|] == slices;
  }

  lemma SliceKept(
    ci: CompressionIndex, slices: seq<string>, words: seq<string>, hashes: seq<Bits32>, slice: string, hash: Bits32)
    requires KeptAndHashed(ci, slices, words, hashes) && Lowercase(slice)
    requires slice != "" && Passes(ci, slice) && (AllKnown(ci, slice) ==> hash == Hash(ci, slice))
    ensures KeptAndHashed(ci, slices + [slice], words + [slice], hashes + [hash])
  {
    hide Hash, AllKnown, Passes;
    assert (slices + [slice])[..|slices|] == slices;
  }

  /** slices are the first e of the words the ends delimit, and begin is where the next one starts. */
  ghost predicate Cut(csv: string, ends: seq<nat>, e: nat, begin: nat, slices: seq<string>)
    requires Delimits(ends, 0, |csv|)
  {
    && e <= |ends| && Delimits(ends[e..], begin, |csv|)
    && slices + Slices(csv, begin, ends[e..]) == Slices(csv, 0, ends)
  }

  lemma CutStart(csv: string, ends: seq<nat>)
    requires Delimits(ends, 0, |csv|)
    ensures Cut(csv, ends, 0, 0, [])
  {
    assert ends[0..] == ends;
  }

  lemma CutNext(csv: string, ends: seq<nat>, e: nat, begin: nat, slices: seq<string>)
    requires Delimits(ends, 0, |csv|) && Cut(csv, ends, e, begin, slices) && e < |ends|
    ensures begin <= ends[e] <= |csv| && Cut(csv, ends, e + 1, ends[e] + 1, slices + [csv[begin..ends[e]]])
    ensures AllLowercase(Slices(csv, 0, ends)) ==> Lowercase(csv[begin..ends[e]])
  {
    var slice, all := csv[begin..ends[e]], Slices(csv, 0, ends);
    hide Slices, Delimits, Lowercase;
    NextSlice(csv, begin, ends, e);
    MoveOver(slices, slice, Slices(csv, ends[e] + 1, ends[e + 1..]));
    assert AllLowercase(all) ==> Lowercase(all[|slices|]);
  }

  lemma MoveOver<T>(a: seq<T>, x: T, b: seq<T>)
    ensures a + ([x] + b) == (a + [x]) + b && (a + ([x] + b))[|a|] == x
  {
  }

  lemma NextSlice(csv: string, begin: nat, ends: seq<nat>, e: nat)
    requires e < |ends| && Delimits(ends[e..], begin, |csv|)
    ensures begin <= ends[e] <= |csv| && Delimits(ends[e + 1..], ends[e] + 1, |csv|)
    ensures Slices(csv, begin, ends[e..]) == [csv[begin..ends[e]]] + Slices(csv, ends[e] + 1, ends[e + 1..])
  {
    assert ends[e..][1..] == ends[e + 1..];
  }

  lemma CutEnd(csv: string, ends: seq<nat>, begin: nat, slices: seq<string>)
    requires Delimits(ends, 0, |csv|) && Cut(csv, ends, |ends|, begin, slices)
    ensures slices == Slices(csv, 0, ends)
  {
    assert ends[|ends|..] == [];
  }

  /** The loop over the letters of the word at begin: breaks off at the first pair that overlaps. */
  method HashWord(ci: CompressionIndex, charFilterMasks: seq<Bits32>, word: string, begin: nat, junk: nat -> Bits32)
    returns (passes: bool, wordHash: Bits32)
    requires word != "" && Lowercase(word) && FilterMasks(ci, charFilterMasks)
    ensures passes <==> Passes(ci, word)
    ensures passes && AllKnown(ci, word) ==> wordHash == Hash(ci, word)
  {
    hide Passes, AllKnown, Hash, FilterMask, Follows, Known;
    wordHash := BitFlag(word[0], ci, junk(begin));
    var i := 1;
    FirstLetter(ci, word, wordHash, junk(begin));
    while i < |word|
      invariant 1 <= i <= |word| && Passes(ci, word[..i])
      invariant AllKnown(ci, word[..i]) ==> wordHash == Hash(ci, word[..i])
    {
      NextLetter(ci, word, i, wordHash, junk(begin + i));
      var charMask := charFilterMasks[Idx(word[i])];
      var prevCharMask := charFilterMasks[Idx(word[i - 1])];
      wordHash := Or(wordHash, BitFlag(word[i], ci, junk(begin + i)));
      OverlapIsExact(ci, word[i - 1], word[i], prevCharMask, charMask);
      if !IsZero(And(prevCharMask, charMask)) {
        break;
      }
      i := i + 1;
    }
    assert i == |word| ==> word[..i] == word;
    return i == |word|, wordHash;
  }

  /**
    Keeps the delimited words that pass, and their masks. What a flag is for a letter outside the box
    (junk, by the position it is read at) shows in the mask of a one-letter word at most.
   */
  method FilterAndHash(ci: CompressionIndex, csv: string, wordEnds: seq<nat>, junk: nat -> Bits32)
    returns (words: seq<string>, wordHashes: seq<Bits32>)
    requires Delimits(wordEnds, 0, |csv|)
    requires AllLowercase(Slices(csv, 0, wordEnds))
    ensures words == Kept(ci, Slices(csv, 0, wordEnds)) && Hashed(ci, words, wordHashes)
  {
    hide *;
    var charFilterMasks := GenCharFilterMasks(ci);
    words, wordHashes := [], [];
    var begin := 0;
    ghost var slices := [];
    CutStart(csv, wordEnds);
    NothingKept(ci);
    for e := 0 to |wordEnds|
      invariant Cut(csv, wordEnds, e, begin, slices) && KeptAndHashed(ci, slices, words, wordHashes)
    {
      var end := wordEnds[e];
      CutNext(csv, wordEnds, e, begin, slices);
      var size := end - begin;
      ghost var slice := csv[begin..end];
      if size > 0 {
        var word := csv[begin..end];
        var passes, wordHash := HashWord(ci, charFilterMasks, word, begin, junk);
        if passes {
          SliceKept(ci, slices, words, wordHashes, slice, wordHash);
          words := words + [word];
          wordHashes := wordHashes + [wordHash];
        } else {
          SliceDropped(ci, slices, words, wordHashes, slice);
        }
      } else {
        SliceDropped(ci, slices, words, wordHashes, slice);
      }
      slices := slices + [slice];
      begin := end + 1;
    }
    CutEnd(csv, wordEnds, begin, slices);
    KeptAndHashedMeans(ci, slices, words, wordHashes);
  }

  lemma NothingKept(ci: CompressionIndex)
    ensures KeptAndHashed(ci, [], [], [])
  {
  }

  lemma KeptAndHashedMeans(ci: CompressionIndex, slices: seq<string>, words: seq<string>, hashes: seq<Bits32>)
    requires KeptAndHashed(ci, slices, words, hashes)
    ensures AllLowercase(slices) && words == Kept(ci, slices) && Hashed(ci, words, hashes)
  {
  }
}
