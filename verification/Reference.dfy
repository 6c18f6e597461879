/** The plain solver the benchmarks compare with: a recursive search over the words by first letter. */
module Reference {
  import opened Words
  import opened Settings
  import opened Puzzle
  import opened Index

  // ----- letters and words

  /** Letters are folded to lower case. */
  function Fold(c: char): char {
    if 'A' <= c <= 'Z' then (c as int - 'A' as int + 'a' as int) as char else c
  }

  datatype WordInfo = WordInfo(word: string, mask: Bits32, start: char, end: char)

  /** The letters of a text, folded. */
  function Letters(s: string): (r: string)
    ensures Lowercase(r)
  {
    if s == "" then ""
    else
      var c := Fold(s[|s| - 1]);
      Letters(s[..|s| - 1]) + if Lower(c) then [c] else []
  }

  const NO_SIDE := -1

  /** The side of a letter: by its last place, three places to a side. */
  function SideOf(letters: string, c: char): (side: int)
    ensures side == NO_SIDE <==> c !in letters
    ensures side == NO_SIDE || 0 <= side <= (|letters| - 1) / CHARS_PER_SIDE
  {
    if letters == "" then NO_SIDE
    else if letters[|letters| - 1] == c then (|letters| - 1) / CHARS_PER_SIDE
    else SideOf(letters[..|letters| - 1], c)
  }

  /** Bit by bit, the letters c of the alphabet with p(c). */
  ghost predicate IsLetterMask(mask: Bits32, letters: string) {
    forall b :: 0 <= b < MASK_BITS ==> (mask[b] <==> exists k :: 0 <= k < |letters| && LetterAt(letters, k, b))
  }

  predicate LetterAt(letters: string, k: nat, b: nat)
    requires k < |letters|
  {
    letters[k] as int == FIRST as int + b
  }

  /** The first n letters are of the box, no two neighbours on one side. */
  predicate ValidUpTo(letters: string, w: string, n: nat)
    requires n <= |w|
  {
    && (forall k :: 0 <= k < n ==> Lower(Fold(w[k])) && SideOf(letters, Fold(w[k])) != NO_SIDE)
    && forall k :: 0 < k < n ==> SideOf(letters, Fold(w[k - 1])) != SideOf(letters, Fold(w[k]))
  }

  /** A word the game allows: three letters or more, all of the box, no two neighbours on one side. */
  predicate Valid(letters: string, w: string) {
    |w| >= 3 && ValidUpTo(letters, w, |w|)
  }

  function LastSide(letters: string, w: string, n: nat): int
    requires n <= |w|
  {
    if n == 0 then NO_SIDE else SideOf(letters, Fold(w[n - 1]))
  }

  lemma ValidNext(letters: string, w: string, n: nat)
    requires n < |w| && ValidUpTo(letters, w, n)
    ensures
      var c := Fold(w[n]);
      var ok := Lower(c) && SideOf(letters, c) != NO_SIDE && SideOf(letters, c) != LastSide(letters, w, n);
      if ok then ValidUpTo(letters, w, n + 1) else !ValidUpTo(letters, w, |w|)
    ensures LastSide(letters, w, n + 1) == SideOf(letters, Fold(w[n]))
  {
    hide SideOf;
  }

  function Folded(w: string): (r: string)
    ensures |r| == |w| && forall k :: 0 <= k < |r| ==> r[k] == Fold(w[k])
  {
    seq(|w|, k requires 0 <= k < |w| => Fold(w[k]))
  }

  /** What is kept of a valid word. */
  ghost predicate InfoOf(info: WordInfo, w: string) {
    && w != "" && info.word == w && IsLetterMask(info.mask, Folded(w))
    && info.start == Fold(w[0]) && info.end == Fold(w[|w| - 1])
  }

  lemma NothingValidated(letters: string, w: string)
    ensures ValidUpTo(letters, w, 0) && LastSide(letters, w, 0) == NO_SIDE
    ensures IsLetterMask(Zero(MASK_BITS), Folded(w)[..0])
  {
  }

  lemma FoldedNext(w: string, n: nat)
    requires n < |w|
    ensures Folded(w)[..n + 1] == Folded(w)[..n] + [Fold(w[n])]
  {
  }

  lemma MaskStep(mask: Bits32, letters: string, c: char)
    requires Lower(c) && IsLetterMask(mask, letters)
    ensures IsLetterMask(Or(mask, OneAt(MASK_BITS, Idx(c))), letters + [c])
  {
    var mask', longer := Or(mask, OneAt(MASK_BITS, Idx(c))), letters + [c];
    forall b | 0 <= b < MASK_BITS
      ensures mask'[b] <==> exists k :: 0 <= k < |longer| && LetterAt(longer, k, b)
    {
      if mask[b] {
        var k :| 0 <= k < |letters| && LetterAt(letters, k, b);
        assert LetterAt(longer, k, b);
      }
      if b == Idx(c) {
        assert LetterAt(longer, |letters|, b);
      }
      if k :| 0 <= k < |longer| && LetterAt(longer, k, b) {
        assert k < |letters| ==> LetterAt(letters, k, b);
      }
    }
  }

  // ----- tokens

  predicate Delimiter(c: char) {
    c == '\r' || c == '\n' || c == ',' || c == ' ' || c == '\t'
  }

  /** The next position that is (or is not) a delimiter, or the end. */
  function Skip(data: string, i: nat, delimiters: bool): (r: nat)
    requires i <= |data|
    ensures i <= r <= |data|
    ensures forall k :: i <= k < r ==> Delimiter(data[k]) == delimiters
    ensures r < |data| ==> Delimiter(data[r]) != delimiters
    decreases |data| - i
  {
    if i < |data| && Delimiter(data[i]) == delimiters then Skip(data, i + 1, delimiters) else i
  }

  /** The maximal runs without delimiters from i on. */
  function Tokens(data: string, i: nat): seq<string>
    requires i <= |data|
    decreases |data| - i
  {
    var start := Skip(data, i, true);
    if start == |data| then []
    else
      var end := Skip(data, start, false);
      [data[start..end]] + Tokens(data, end)
  }

  /** The tokens before i are done. */
  ghost predicate TokensDone(data: string, i: nat, done: seq<string>)
    requires i <= |data|
  {
    done + Tokens(data, i) == Tokens(data, 0)
  }

  lemma NoTokensDone(data: string)
    ensures TokensDone(data, 0, [])
  {
    assert [] + Tokens(data, 0) == Tokens(data, 0);
  }

  lemma TokenDone(data: string, i: nat, done: seq<string>)
    requires i <= |data| && Skip(data, i, true) < |data| && TokensDone(data, i, done)
    ensures
      var start := Skip(data, i, true);
      var end := Skip(data, start, false);
      TokensDone(data, end, done + [data[start..end]])
  {
    var start := Skip(data, i, true);
    var end := Skip(data, start, false);
    MoveOver(done, data[start..end], Tokens(data, end));
  }

  lemma AllTokensDone(data: string, i: nat, done: seq<string>)
    requires i <= |data| && TokensDone(data, i, done)
    ensures Skip(data, i, true) == |data| ==> done == Tokens(data, 0) && TokensDone(data, |data|, done)
  {
  }

  // ----- chains of word infos

  /** The words filed by first letter. */
  type Filing = f: seq<seq<WordInfo>> | |f| == CHARACTERS witness seq(CHARACTERS, _ => [])

  /** Every word is filed under its first letter. */
  ghost predicate Sorted(f: Filing) {
    forall i, j :: 0 <= i < CHARACTERS && 0 <= j < |f[i]| ==> SortedAt(f[i][j], i)
  }

  predicate SortedAt(info: WordInfo, i: nat) {
    Lower(info.start) && Idx(info.start) == i && Lower(info.end)
  }

  /** The valid words that start with letter i, in order. */
  function Starting(letters: string, words: seq<string>, i: nat): (r: seq<string>)
    ensures forall w :: w in r <==> w in words && Valid(letters, w) && Idx(Fold(w[0])) == i
  {
    if words == [] then []
    else
      var w := words[|words| - 1];
      assert words == words[..|words| - 1] + [w];
      Starting(letters, words[..|words| - 1], i) +
      if Valid(letters, w) && Idx(Fold(w[0])) == i then [w] else []
  }

  /** The filing of the valid words among the given ones. */
  ghost predicate FiledAs(f: Filing, letters: string, words: seq<string>) {
    forall i :: 0 <= i < CHARACTERS ==> FiledAt(f[i], letters, words, i)
  }

  ghost predicate FiledAt(infos: seq<WordInfo>, letters: string, words: seq<string>, i: nat) {
    WordsOf(infos) == Starting(letters, words, i) && forall j :: 0 <= j < |infos| ==> InfoOf(infos[j], infos[j].word)
  }

  lemma FiledIsSorted(f: Filing, letters: string, words: seq<string>)
    requires FiledAs(f, letters, words)
    ensures Sorted(f)
  {
    forall i, j | 0 <= i < CHARACTERS && 0 <= j < |f[i]| ensures SortedAt(f[i][j], i) {
      assert FiledAt(f[i], letters, words, i);
      assert WordsOf(f[i])[j] in Starting(letters, words, i);
    }
  }

  lemma FileWord(f: Filing, letters: string, words: seq<string>, w: string, info: WordInfo)
    requires FiledAs(f, letters, words) && Valid(letters, w) && InfoOf(info, w)
    ensures Lower(info.start)
    ensures
      var i := Idx(info.start);
      FiledAs(f[i := f[i] + [info]], letters, words + [w])
  {
    hide Starting, InfoOf, FiledAt;
    StartingStep(letters, words, w, 0);
    InfoStart(info, w);
    var i := Idx(info.start);
    var f' := f[i := f[i] + [info]];
    forall k | 0 <= k < CHARACTERS ensures FiledAt(f'[k], letters, words + [w], k) {
      if k == i {
        FiledAtMore(f[k], letters, words, w, info, k);
      } else {
        FiledAtOther(f[k], letters, words, w, k);
      }
    }
  }

  lemma InfoStart(info: WordInfo, w: string)
    requires InfoOf(info, w)
    ensures w != "" && info.start == Fold(w[0])
  {
  }

  lemma FiledAtMore(infos: seq<WordInfo>, letters: string, words: seq<string>, w: string, info: WordInfo, i: nat)
    requires FiledAt(infos, letters, words, i) && Valid(letters, w) && InfoOf(info, w)
    requires Lower(info.start) && Idx(info.start) == i
    ensures FiledAt(infos + [info], letters, words + [w], i)
  {
    hide Starting, Valid, IsLetterMask;
    StartingStep(letters, words, w, i);
    assert WordsOf(infos + [info]) == WordsOf(infos) + [info.word];
  }

  lemma FiledAtOther(infos: seq<WordInfo>, letters: string, words: seq<string>, w: string, i: nat)
    requires FiledAt(infos, letters, words, i) && (Valid(letters, w) ==> Idx(Fold(w[0])) != i)
    ensures FiledAt(infos, letters, words + [w], i)
  {
    hide Starting, InfoOf;
    StartingStep(letters, words, w, i);
  }

  lemma SkipWord(f: Filing, letters: string, words: seq<string>, w: string)
    requires FiledAs(f, letters, words) && !Valid(letters, w)
    ensures FiledAs(f, letters, words + [w])
  {
    hide Valid, InfoOf, Starting, FiledAt;
    forall k | 0 <= k < CHARACTERS ensures FiledAt(f[k], letters, words + [w], k) {
      FiledAtOther(f[k], letters, words, w, k);
    }
  }

  lemma StartingStep(letters: string, words: seq<string>, w: string, i: nat)
    ensures Valid(letters, w) ==> w != "" && Lower(Fold(w[0])) && Lower(Fold(w[|w| - 1]))
    ensures Starting(letters, words + [w], i) ==
            if Valid(letters, w) && Idx(Fold(w[0])) == i then Starting(letters, words, i) + [w]
            else Starting(letters, words, i)
  {
    assert (words + [w])[..|words|] == words;
  }

  /** Each word is filed under the letter the one before ends with, the first under c. */
  ghost predicate Continues(f: Filing, c: char, infos: seq<WordInfo>)
    decreases |infos|
  {
    infos != [] ==> Lower(c) && infos[0] in f[Idx(c)] && Continues(f, infos[0].end, infos[1..])
  }

  function MaskAfter(mask: Bits32, infos: seq<WordInfo>): Bits32
    decreases |infos|
  {
    if infos == [] then mask else MaskAfter(Or(mask, infos[0].mask), infos[1..])
  }

  function WordsOf(infos: seq<WordInfo>): (ws: seq<string>)
    ensures |ws| == |infos| && forall k :: 0 <= k < |ws| ==> ws[k] == infos[k].word
  {
    seq(|infos|, k requires 0 <= k < |infos| => infos[k].word)
  }

  /** At most n more words, from letter c and the letters of the mask, reach the target. */
  ghost predicate Reaches(f: Filing, target: Bits32, c: char, mask: Bits32, n: nat, infos: seq<WordInfo>) {
    |infos| <= n && Continues(f, c, infos) && MaskAfter(mask, infos) == target
  }

  /** A chain that starts with a letter of the box and reaches the target. */
  ghost predicate Chain(f: Filing, letters: string, target: Bits32, infos: seq<WordInfo>) {
    && infos != [] && Lower(infos[0].start) && infos[0].start in letters
    && infos[0] in f[Idx(infos[0].start)]
    && Reaches(f, target, infos[0].end, infos[0].mask, |infos|, infos[1..])
  }

  lemma ReachesNow(f: Filing, target: Bits32, c: char, mask: Bits32, n: nat)
    ensures Reaches(f, target, c, mask, n, []) <==> mask == target
    ensures forall infos :: Reaches(f, target, c, mask, 0, infos) ==> infos == []
  {
  }

  lemma ReachesMore(f: Filing, target: Bits32, c: char, mask: Bits32, n: nat, info: WordInfo, infos: seq<WordInfo>)
    requires Lower(c) && n > 0
    ensures
      var longer := [info] + infos;
      Reaches(f, target, c, mask, n, longer) <==>
      info in f[Idx(c)] && Reaches(f, target, info.end, Or(mask, info.mask), n - 1, infos)
  {
    assert ([info] + infos)[1..] == infos;
  }

  /** No chain continues with one of the first j words of c's file. */
  ghost predicate NoneAmong(f: Filing, target: Bits32, c: char, mask: Bits32, n: nat, j: nat)
    requires Lower(c) && j <= |f[Idx(c)]|
  {
    forall k, infos :: 0 <= k < j ==>
      !Reaches(f, target, f[Idx(c)][k].end, Or(mask, f[Idx(c)][k].mask), n, infos)
  }

  lemma NoneReach(f: Filing, target: Bits32, c: char, mask: Bits32, n: nat)
    requires Lower(c) && n > 0 && mask != target && NoneAmong(f, target, c, mask, n - 1, |f[Idx(c)]|)
    ensures forall infos :: !Reaches(f, target, c, mask, n, infos)
  {
    forall infos ensures !Reaches(f, target, c, mask, n, infos) {
      if infos != [] {
        assert infos == [infos[0]] + infos[1..];
        ReachesMore(f, target, c, mask, n, infos[0], infos[1..]);
      }
    }
  }

  ghost predicate SidesOk(charToSide: seq<int>, letters: string) {
    |charToSide| == CHARACTERS && forall c :: Lower(c) ==> charToSide[Idx(c)] == SideOf(letters, c)
  }

  /** The path has grown by infos, and all its words have been put out. */
  ghost predicate Recorded(
    path: seq<WordInfo>, out: seq<string>, infos: seq<WordInfo>, path': seq<WordInfo>, out': seq<string>)
  {
    path' == path + infos && out' == out + WordsOf(path')
  }

  class LetterBoxedSolver {
    var validWordsByStart: Filing
    var charToSide: seq<int>
    var boxLetters: string
    var targetMask: Bits32

    constructor ()
    {
      validWordsByStart := seq(CHARACTERS, _ => []);
      charToSide := seq(CHARACTERS, _ => NO_SIDE);
      boxLetters := "";
      targetMask := Zero(MASK_BITS);
    }

    /** The sides are those of the box letters. */
    ghost predicate BoxRead()
      reads this`charToSide, this`boxLetters
    {
      SidesOk(charToSide, boxLetters)
    }

    method ValidateAndProcessWord(word: string) returns (valid: bool, outMask: Bits32)
      requires BoxRead()
      ensures valid <==> Valid(boxLetters, word)
      ensures valid ==> IsLetterMask(outMask, Folded(word))
    {
      hide ValidUpTo, LastSide, IsLetterMask, SideOf, Folded;
      outMask := Zero(MASK_BITS);
      if |word| < 3 {
        return false, outMask;
      }
      var mask := Zero(MASK_BITS);
      var lastSide := NO_SIDE;
      NothingValidated(boxLetters, word);
      for p := 0 to |word|
        invariant |mask| == MASK_BITS && IsLetterMask(mask, Folded(word)[..p])
        invariant lastSide == LastSide(boxLetters, word, p) && ValidUpTo(boxLetters, word, p)
      {
        ValidNext(boxLetters, word, p);
        var c := Fold(word[p]);
        if !Lower(c) {
          return false, outMask;
        }
        var side := charToSide[Idx(c)];
        if side == NO_SIDE || side == lastSide {
          return false, outMask;
        }
        FoldedNext(word, p);
        MaskStep(mask, Folded(word)[..p], c);
        mask := Or(mask, OneAt(MASK_BITS, Idx(c)));
        lastSide := side;
      }
      assert Folded(word)[..|word|] == Folded(word);
      return true, mask;
    }

    /** Files a token if it is a valid word. */
    method FileToken(word: string, ghost done: seq<string>)
      requires BoxRead() && FiledAs(validWordsByStart, boxLetters, done)
      modifies this`validWordsByStart
      ensures FiledAs(validWordsByStart, boxLetters, done + [word])
    {
      hide Starting, Valid, IsLetterMask, FiledAs;
      var valid, mask := ValidateAndProcessWord(word);
      if valid {
        StartingStep(boxLetters, done, word, 0);
        var s := Fold(word[0]);
        var e := Fold(word[|word| - 1]);
        var info := WordInfo(word, mask, s, e);
        FileWord(validWordsByStart, boxLetters, done, word, info);
        validWordsByStart := validWordsByStart[Idx(s) := validWordsByStart[Idx(s)] + [info]];
      } else {
        SkipWord(validWordsByStart, boxLetters, done, word);
      }
    }

    /** Files the valid words of a text by first letter. */
    method LoadAndFilterDictionary(data: string)
      requires BoxRead() && validWordsByStart == seq(CHARACTERS, _ => [])
      modifies this`validWordsByStart
      ensures FiledAs(validWordsByStart, boxLetters, Tokens(data, 0))
    {
      hide Starting, Valid, IsLetterMask, Tokens, TokensDone, FiledAs;
      var ptr := 0;
      ghost var done := [];
      FiledNothing(boxLetters);
      NoTokensDone(data);
      while ptr < |data|
        invariant ptr <= |data| && BoxRead()
        invariant TokensDone(data, ptr, done) && FiledAs(validWordsByStart, boxLetters, done)
        decreases |data| - ptr
      {
        ghost var from := ptr;
        while ptr < |data| && Delimiter(data[ptr])
          invariant ptr <= |data| && Skip(data, ptr, true) == Skip(data, from, true)
        {
          ptr := ptr + 1;
        }
        AllTokensDone(data, from, done);
        if ptr >= |data| {
          break;
        }
        var wordStart := ptr;
        while ptr < |data| && !Delimiter(data[ptr])
          invariant wordStart <= ptr <= |data| && Skip(data, ptr, false) == Skip(data, wordStart, false)
        {
          ptr := ptr + 1;
        }
        var word := data[wordStart..ptr];
        TokenDone(data, from, done);
        FileToken(word, done);
        done := done + [word];
      }
      AllTokensDone(data, ptr, done);
    }

    /**
      Searches depth first for words that complete the mask; the path keeps the words taken on
      success, and is as it was on failure.
     */
    method Dfs(currChar: char, currentMask: Bits32, depth: nat, maxDepth: nat,
               path: seq<WordInfo>, outSolution: seq<string>)
      returns (found: bool, path': seq<WordInfo>, outSolution': seq<string>)
      requires Sorted(validWordsByStart) && Lower(currChar) && depth <= maxDepth
      ensures found ==>
        var n := maxDepth - depth;
        exists infos :: Reaches(validWordsByStart, targetMask, currChar, currentMask, n, infos) &&
          Recorded(path, outSolution, infos, path', outSolution')
      ensures !found ==> path' == path && outSolution' == outSolution
      ensures !found ==>
        var n := maxDepth - depth;
        forall infos :: !Reaches(validWordsByStart, targetMask, currChar, currentMask, n, infos)
      decreases maxDepth - depth
    {
      hide Reaches, Sorted;
      ghost var n := maxDepth - depth;
      ReachesNow(validWordsByStart, targetMask, currChar, currentMask, n);
      path', outSolution' := path, outSolution;
      if currentMask == targetMask {
        for k := 0 to |path'|
          invariant outSolution' == outSolution + WordsOf(path[..k])
        {
          assert WordsOf(path[..k + 1]) == WordsOf(path[..k]) + [path[k].word];
          outSolution' := outSolution' + [path'[k].word];
        }
        assert path[..|path|] == path == path + [];
        assert Recorded(path, outSolution, [], path', outSolution');
        return true, path', outSolution';
      }
      if depth == maxDepth {
        return false, path', outSolution';
      }
      var idx := Idx(currChar);
      ghost var f := validWordsByStart;
      for j := 0 to |validWordsByStart[idx]|
        invariant path' == path && outSolution' == outSolution
        invariant NoneAmong(f, targetMask, currChar, currentMask, n - 1, j)
      {
        var w := validWordsByStart[idx][j];
        SortedWord(f, idx, j);
        path' := path' + [w];
        found, path', outSolution' :=
          Dfs(w.end, Or(currentMask, w.mask), depth + 1, maxDepth, path', outSolution');
        if found {
          ghost var infos :| Reaches(f, targetMask, w.end, Or(currentMask, w.mask), n - 1, infos) &&
            Recorded(path + [w], outSolution, infos, path', outSolution');
          ReachesMore(f, targetMask, currChar, currentMask, n, w, infos);
          assert path + [w] + infos == path + ([w] + infos);
          assert Recorded(path, outSolution, [w] + infos, path', outSolution');
          return true, path', outSolution';
        }
        path' := path'[..|path'| - 1];
      }
      NoneReach(f, targetMask, currChar, currentMask, n);
      return false, path', outSolution';
    }

    /** Reads the box: the nth letter, folded, is on side n / 3. */
    method ReadBox(boxChars: string)
      modifies this`charToSide, this`boxLetters, this`targetMask
      ensures boxLetters == Letters(boxChars) && BoxRead() && IsLetterMask(targetMask, boxLetters)
    {
      hide Letters, SidesOk, IsLetterMask;
      charToSide := seq(CHARACTERS, _ => NO_SIDE);
      boxLetters := "";
      targetMask := Zero(MASK_BITS);
      NothingRead();
      var sideCount, charInSideCount := 0, 0;
      for i := 0 to |boxChars|
        invariant boxLetters == Letters(boxChars[..i]) && BoxRead() && IsLetterMask(targetMask, boxLetters)
        invariant sideCount * CHARS_PER_SIDE + charInSideCount == |boxLetters| && charInSideCount < CHARS_PER_SIDE
      {
        var c := Fold(boxChars[i]);
        LettersNext(boxChars, i);
        if Lower(c) {
          MaskStep(targetMask, boxLetters, c);
          SidesNext(charToSide, boxLetters, c, sideCount, charInSideCount);
          boxLetters := boxLetters + [c];
          charToSide := charToSide[Idx(c) := sideCount];
          targetMask := Or(targetMask, OneAt(MASK_BITS, Idx(c)));
          charInSideCount := charInSideCount + 1;
          if charInSideCount == CHARS_PER_SIDE {
            charInSideCount := 0;
            sideCount := sideCount + 1;
          }
        }
      }
      assert boxChars[..|boxChars|] == boxChars;
    }

    /** Deepens from one word to three: the first chain found is a shortest one. */
    method Search() returns (solution: seq<string>)
      requires Sorted(validWordsByStart) && Lowercase(boxLetters)
      ensures solution != [] ==>
        exists infos :: Chain(validWordsByStart, boxLetters, targetMask, infos) && solution == WordsOf(infos)
      ensures LongerThan(
        validWordsByStart, boxLetters, targetMask, if solution == [] then MAX_WORDS else |solution| - 1)
      ensures |solution| <= MAX_WORDS
    {
      hide Chain, Reaches, Sorted, LongerThan, NoneAmong;
      ghost var f, letters, target := validWordsByStart, boxLetters, targetMask;
      solution := [];
      NoEmptyChain(f, letters, target);
      for maxDepth := 1 to MAX_WORDS + 1
        invariant solution == [] && LongerThan(f, letters, target, maxDepth - 1)
      {
        NoLetters(f, letters, target, maxDepth);
        for s := 0 to |boxLetters|
          invariant solution == [] && LongerThan(f, letters[..s], target, maxDepth)
        {
          var startChar := boxLetters[s];
          var idx := Idx(startChar);
          NoWords(f, target, startChar, maxDepth - 1);
          for j := 0 to |validWordsByStart[idx]|
            invariant solution == [] && NoneAmong(f, target, startChar, Zero(MASK_BITS), maxDepth - 1, j)
          {
            var w := validWordsByStart[idx][j];
            SortedWord(f, idx, j);
            OrZero(w.mask);
            var found, path, out := Dfs(w.end, w.mask, 1, maxDepth, [w], solution);
            if found {
              ghost var infos :| Reaches(f, target, w.end, w.mask, maxDepth - 1, infos) &&
                Recorded([w], [], infos, path, out);
              ChainFound(f, letters, target, s, w, maxDepth - 1, infos);
              solution := out;
              LongerThanFewer(f, letters, target, maxDepth - 1, |solution| - 1);
              return;
            }
            AnotherWord(f, target, startChar, maxDepth - 1, j);
          }
          LetterDone(f, letters, target, maxDepth, s);
        }
        assert letters[..|letters|] == letters;
      }
    }

    /** Solves a box with the words of a text, from scratch. */
    method Run(boxChars: string, dictionary: string) returns (solution: seq<string>)
      modifies this
      ensures boxLetters == Letters(boxChars) && IsLetterMask(targetMask, boxLetters)
      ensures FiledAs(validWordsByStart, boxLetters, Tokens(dictionary, 0))
      ensures solution != [] ==>
        exists infos :: Chain(validWordsByStart, boxLetters, targetMask, infos) && solution == WordsOf(infos)
      ensures LongerThan(
        validWordsByStart, boxLetters, targetMask, if solution == [] then MAX_WORDS else |solution| - 1)
      ensures |solution| <= MAX_WORDS
    {
      validWordsByStart := seq(CHARACTERS, _ => []);
      ReadBox(boxChars);
      LoadAndFilterDictionary(dictionary);
      FiledIsSorted(validWordsByStart, boxLetters, Tokens(dictionary, 0));
      solution := Search();
    }
  }

  lemma NothingRead()
    ensures Letters("") == "" && IsLetterMask(Zero(MASK_BITS), "")
    ensures SidesOk(seq(CHARACTERS, _ => NO_SIDE), "")
  {
  }

  lemma LettersNext(s: string, i: nat)
    requires i < |s|
    ensures Letters(s[..i + 1]) == if Lower(Fold(s[i])) then Letters(s[..i]) + [Fold(s[i])] else Letters(s[..i])
  {
    assert s[..i + 1][..i] == s[..i];
  }

  lemma SidesNext(charToSide: seq<int>, letters: string, c: char, side: nat, inSide: nat)
    requires SidesOk(charToSide, letters) && Lower(c)
    requires side * CHARS_PER_SIDE + inSide == |letters| && inSide < CHARS_PER_SIDE
    ensures |charToSide| == CHARACTERS && SidesOk(charToSide[Idx(c) := side], letters + [c])
  {
    assert (letters + [c])[..|letters|] == letters;
  }

  const MAX_WORDS := 3

  /** Every chain has more than n words. */
  ghost predicate LongerThan(f: Filing, letters: string, target: Bits32, n: nat) {
    forall infos :: Chain(f, letters, target, infos) ==> |infos| > n
  }

  lemma LongerThanFewer(f: Filing, letters: string, target: Bits32, n: nat, m: nat)
    requires LongerThan(f, letters, target, n) && m <= n
    ensures LongerThan(f, letters, target, m)
  {
  }

  lemma NoEmptyChain(f: Filing, letters: string, target: Bits32)
    ensures LongerThan(f, letters, target, 0)
  {
  }

  lemma NoLetters(f: Filing, letters: string, target: Bits32, n: nat)
    ensures LongerThan(f, letters[..0], target, n)
  {
  }

  lemma NoWords(f: Filing, target: Bits32, c: char, n: nat)
    requires Lower(c)
    ensures NoneAmong(f, target, c, Zero(MASK_BITS), n, 0)
  {
  }

  lemma AnotherWord(f: Filing, target: Bits32, c: char, n: nat, j: nat)
    requires Lower(c) && j < |f[Idx(c)]| && NoneAmong(f, target, c, Zero(MASK_BITS), n, j)
    requires forall infos :: !Reaches(f, target, f[Idx(c)][j].end, f[Idx(c)][j].mask, n, infos)
    ensures NoneAmong(f, target, c, Zero(MASK_BITS), n, j + 1)
  {
    hide Reaches;
    OrZero(f[Idx(c)][j].mask);
  }

  lemma ChainFound(
    f: Filing, letters: string, target: Bits32, s: nat, w: WordInfo, n: nat, infos: seq<WordInfo>)
    requires Sorted(f) && Lowercase(letters) && s < |letters| && w in f[Idx(letters[s])]
    requires Reaches(f, target, w.end, w.mask, n, infos)
    ensures Chain(f, letters, target, [w] + infos) && |infos| <= n
  {
    var j :| 0 <= j < |f[Idx(letters[s])]| && f[Idx(letters[s])][j] == w;
    SortedWord(f, Idx(letters[s]), j);
    assert w.start == letters[s];
    assert ([w] + infos)[1..] == infos;
  }

  lemma LetterDone(f: Filing, letters: string, target: Bits32, n: nat, s: nat)
    requires Sorted(f) && Lowercase(letters) && s < |letters| && n > 0
    requires LongerThan(f, letters[..s], target, n)
    requires NoneAmong(f, target, letters[s], Zero(MASK_BITS), n - 1, |f[Idx(letters[s])]|)
    ensures LongerThan(f, letters[..s + 1], target, n)
  {
    forall infos: seq<WordInfo> | Chain(f, letters[..s + 1], target, infos) ensures |infos| > n {
      var w := infos[0];
      if w.start in letters[..s] {
        assert Chain(f, letters[..s], target, infos);
      } else {
        assert w.start == letters[s];
        OrZero(w.mask);
        var k :| 0 <= k < |f[Idx(letters[s])]| && f[Idx(letters[s])][k] == w;
        assert !Reaches(f, target, w.end, Or(Zero(MASK_BITS), w.mask), n - 1, infos[1..]);
      }
    }
  }

  lemma SortedWord(f: Filing, i: nat, j: nat)
    requires Sorted(f) && i < CHARACTERS && j < |f[i]|
    ensures Lower(f[i][j].end) && Lower(f[i][j].start) && Idx(f[i][j].start) == i
  {
    assert SortedAt(f[i][j], i);
  }

  lemma FiledNothing(letters: string)
    ensures FiledAs(seq(CHARACTERS, _ => []), letters, [])
  {
  }
}
