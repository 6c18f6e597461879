/** The two solvers agree: each is non-empty exactly when words of the list solve the box. */
module Agreement {
  import opened Words
  import opened Settings
  import opened Puzzle
  import opened Split
  import opened Index
  import Solve
  import opened Reference

  // ----- the plain solver's box is the puzzle's

  lemma {:induction false} FoldLower(s: string)
    requires Lowercase(s)
    ensures Letters(s) == s && Folded(s) == s
  {
    if s != "" {
      FoldLower(s[..|s| - 1]);
      assert s == s[..|s| - 1] + [s[|s| - 1]];
    }
  }

  /** The side by last place. */
  lemma {:induction false} SideAt(letters: string, i: nat)
    requires i < |letters| && forall j :: i < j < |letters| ==> letters[j] != letters[i]
    ensures SideOf(letters, letters[i]) == i / CHARS_PER_SIDE
  {
    if i < |letters| - 1 {
      SideAt(letters[..|letters| - 1], i);
    }
  }

  lemma SidesAgree(box: string, c: char)
    requires IsBox(box)
    ensures SideOf(box, c) == if c in box then Side(box, c) else NO_SIDE
  {
    if c in box {
      SideAt(box, Place(box, c));
    }
  }

  /** For lowercase words of three letters or more, the two rules for a single word are the same. */
  lemma ValidIsPlayable(box: string, w: string)
    requires IsBox(box) && Lowercase(w)
    ensures Valid(box, w) <==> |w| >= 3 && Playable(box, w)
  {
    FoldLower(w);
    assert forall k :: 0 <= k < |w| ==> Fold(w[k]) == w[k];
    forall k | 0 <= k < |w|
      ensures SideOf(box, w[k]) == if w[k] in box then Side(box, w[k]) else NO_SIDE
    {
      SidesAgree(box, w[k]);
    }
  }

  // ----- tokens

  function NonEmpty(words: seq<string>): seq<string> {
    if words == [] then [] else (if words[0] == "" then [] else [words[0]]) + NonEmpty(words[1..])
  }

  /** Letters and commas only. */
  predicate Plain(data: string) {
    forall k :: 0 <= k < |data| ==> Lower(data[k]) || data[k] == ','
  }

  /** On plain text the tokens are the words between the commas that are not empty. */
  lemma {:induction false} TokensAreSlices(data: string, i: nat)
    requires Plain(data) && i <= |data|
    ensures Delimits(EndsFrom(data, ',', i), i, |data|)
    ensures Tokens(data, i) == NonEmpty(Slices(data, i, EndsFrom(data, ',', i)))
    decreases |data| - i
  {
    SlicesFrom(data, ',', i);
    var ends := EndsFrom(data, ',', i);
    if i == |data| {
      assert Slices(data, i, ends) == [""];
    } else {
      var ends' := EndsFrom(data, ',', i + 1);
      EndsFromNext(data, ',', i);
      TokensAreSlices(data, i + 1);
      if data[i] == ',' {
        assert ends[1..] == ends' && data[i..i] == "";
        assert Slices(data, i, ends)[1..] == Slices(data, i + 1, ends');
        assert Skip(data, i, true) == Skip(data, i + 1, true);
      } else {
        assert ends == ends';
        LongerToken(data, i, ends);
      }
    }
  }

  lemma LongerToken(data: string, i: nat, ends: seq<nat>)
    requires Plain(data) && i < |data| && data[i] != ','
    requires ends != [] && ends == EndsFrom(data, ',', i + 1) && Delimits(ends, i + 1, |data|)
    requires Tokens(data, i + 1) == NonEmpty(Slices(data, i + 1, ends))
    ensures Delimits(ends, i, |data|) && Tokens(data, i) == NonEmpty(Slices(data, i, ends))
  {
    hide Slices, NonEmpty, Tokens, EndsFrom;
    FirstSlice(data, i + 1, ends);
    LongerWord(data, ',', i, ends);
    var words, words' := Slices(data, i, ends), Slices(data, i + 1, ends);
    var end := Skip(data, i, false);
    TokenAt(data, i);
    NonEmptyCons([data[i]] + words'[0], words'[1..]);
    assert words' == [words'[0]] + words'[1..];
    NonEmptyCons(words'[0], words'[1..]);
    if i + 1 < |data| && data[i + 1] != ',' {
      TokenAt(data, i + 1);
      assert [words'[0]] + NonEmpty(words'[1..]) == [data[i + 1..end]] + Tokens(data, end);
      SameHead(words'[0], NonEmpty(words'[1..]), data[i + 1..end], Tokens(data, end));
      assert data[i..end] == [data[i]] + data[i + 1..end];
    } else {
      assert end == i + 1 && data[i..end] == [data[i]] == [data[i]] + words'[0];
    }
  }

  lemma SameHead<T>(x: T, s: seq<T>, y: T, t: seq<T>)
    requires [x] + s == [y] + t
    ensures x == y && s == t
  {
    assert ([x] + s)[0] == ([y] + t)[0] && ([x] + s)[1..] == s && ([y] + t)[1..] == t;
  }

  lemma NonEmptyCons(w: string, words: seq<string>)
    ensures NonEmpty([w] + words) == if w == "" then NonEmpty(words) else [w] + NonEmpty(words)
  {
    assert ([w] + words)[1..] == words;
  }

  /** A token starts where no delimiter is. */
  lemma TokenAt(data: string, i: nat)
    requires Plain(data) && i < |data| && data[i] != ','
    ensures
      var end := Skip(data, i, false);
      && Tokens(data, i) == [data[i..end]] + Tokens(data, end)
      && (i + 1 < |data| && data[i + 1] != ',' ==> end == Skip(data, i + 1, false))
      && (i + 1 == |data| || data[i + 1] == ',' ==> end == i + 1)
  {
  }

  /** The first slice is empty iff a comma or the end is next. */
  lemma FirstSlice(data: string, i: nat, ends: seq<nat>)
    requires i <= |data| && ends == EndsFrom(data, ',', i) && Delimits(ends, i, |data|)
    ensures Slices(data, i, ends) != [] && (Slices(data, i, ends)[0] == "" <==> i == |data| || data[i] == ',')
  {
    if i < |data| {
      EndsFromNext(data, ',', i);
      SlicesFrom(data, ',', i + 1);
    }
  }

  lemma {:induction false} NonEmptyExact(words: seq<string>)
    ensures forall w :: w in NonEmpty(words) <==> w in words && w != ""
  {
    if words != [] {
      NonEmptyExact(words[1..]);
      assert words == [words[0]] + words[1..];
    }
  }

  lemma TokensAreWords(csv: string)
    requires Plain(csv)
    ensures forall w :: w in Tokens(csv, 0) <==> w in Solve.WordList(csv) && w != ""
    ensures AllLowercase(Solve.WordList(csv))
  {
    TokensAreSlices(csv, 0);
    assert csv[0..] == csv;
    NonEmptyExact(Solve.WordList(csv));
    PlainWords(csv, 0, EndsOf(csv, ','));
    JoinSlices(csv, ',');
  }

  lemma {:induction false} PlainWords(data: string, i: nat, ends: seq<nat>)
    requires Plain(data) && Delimits(ends, i, |data|) && Free(Slices(data, i, ends), ',')
    ensures AllLowercase(Slices(data, i, ends))
    decreases |ends|
  {
    if ends != [] {
      var words := Slices(data, i, ends);
      assert words[1..] == Slices(data, ends[0] + 1, ends[1..]);
      assert Free(words[1..], ',');
      PlainWords(data, ends[0] + 1, ends[1..]);
      assert Lowercase(words[0]) by {
        forall k | 0 <= k < |words[0]| ensures Lower(words[0][k]) {
          assert words[0][k] == data[i + k] && words[0][k] in words[0];
        }
      }
    }
  }

  // ----- chains of the plain solver and solutions of the box

  ghost predicate LongWords(ws: seq<string>) {
    forall k :: 0 <= k < |ws| ==> |ws[k]| >= 3
  }

  /** The plain solver's files for a box and lowercase words. */
  ghost predicate Loaded(f: Filing, box: string, words: seq<string>) {
    IsBox(box) && AllLowercase(words) && FiledAs(f, box, words)
  }

  /** The filed words are the playable ones of three letters or more. */
  lemma FiledWord(f: Filing, box: string, words: seq<string>, i: nat, info: WordInfo)
    requires Loaded(f, box, words) && i < CHARACTERS && info in f[i]
    ensures info.word in words && |info.word| >= 3 && Lowercase(info.word) && Playable(box, info.word)
    ensures info.start == info.word[0] && info.end == info.word[|info.word| - 1] && Lower(info.end)
    ensures Lower(info.start) && Idx(info.start) == i
    ensures IsLetterMask(info.mask, info.word)
  {
    hide IsLetterMask, Playable, Valid;
    var j :| 0 <= j < |f[i]| && f[i][j] == info;
    var w := info.word;
    assert FiledAt(f[i], box, words, i);
    assert WordsOf(f[i])[j] in Starting(box, words, i);
    assert Lowercase(w) by {
      var k :| 0 <= k < |words| && words[k] == w;
    }
    ValidIsPlayable(box, w);
    FoldLower(w);
    assert Fold(w[0]) == w[0] && Fold(w[|w| - 1]) == w[|w| - 1];
  }

  lemma WordFiled(f: Filing, box: string, words: seq<string>, w: string) returns (info: WordInfo)
    requires Loaded(f, box, words) && w in words && |w| >= 3 && Playable(box, w)
    ensures info.word == w && Lower(w[0]) && info in f[Idx(w[0])]
  {
    hide IsLetterMask, Playable;
    assert Lowercase(w) by {
      var k :| 0 <= k < |words| && words[k] == w;
    }
    ValidIsPlayable(box, w);
    var i := Idx(w[0]);
    assert FiledAt(f[i], box, words, i);
    assert Fold(w[0]) == w[0];
    assert w in Starting(box, words, i);
    var j :| 0 <= j < |f[i]| && WordsOf(f[i])[j] == w;
    info := f[i][j];
  }

  lemma LinkedCons(w: string, ws: seq<string>)
    requires Linked(ws) && w != "" && (ws != [] ==> ws[0] != "" && w[|w| - 1] == ws[0][0])
    ensures Linked([w] + ws)
  {
    var us := [w] + ws;
    forall k | 0 < k < |us| ensures Meets(us, k) {
      if k > 1 {
        assert Meets(ws, k - 1);
      }
    }
  }

  lemma LinkedTail(ws: seq<string>)
    requires Linked(ws) && ws != []
    ensures Linked(ws[1..])
    ensures |ws| > 1 ==> ws[0] != "" && ws[1] != "" && ws[0][|ws[0]| - 1] == ws[1][0]
  {
    assert |ws| > 1 ==> Meets(ws, 1);
    forall k | 0 < k < |ws[1..]| ensures Meets(ws[1..], k) {
      assert Meets(ws, k + 1);
    }
  }

  lemma {:induction false} ContinuesLinked(f: Filing, box: string, words: seq<string>, c: char, infos: seq<WordInfo>)
    requires Loaded(f, box, words) && Continues(f, c, infos)
    ensures
      var ws := WordsOf(infos);
      AllPlayable(box, words, ws) && LongWords(ws) && Linked(ws) && (ws != [] ==> ws[0] != "" && ws[0][0] == c)
    decreases |infos|
  {
    hide Loaded, Playable, IsLetterMask;
    if infos != [] {
      FiledWord(f, box, words, Idx(c), infos[0]);
      ContinuesLinked(f, box, words, infos[0].end, infos[1..]);
      LinkedCons(infos[0].word, WordsOf(infos[1..]));
      assert WordsOf(infos) == [infos[0].word] + WordsOf(infos[1..]);
    }
  }

  lemma {:induction false} LinkedContinues(f: Filing, box: string, words: seq<string>, ws: seq<string>)
    returns (infos: seq<WordInfo>)
    requires Loaded(f, box, words) && AllPlayable(box, words, ws) && LongWords(ws) && Linked(ws)
    ensures WordsOf(infos) == ws && (ws != [] ==> Continues(f, ws[0][0], infos))
    decreases |ws|
  {
    hide Loaded, Playable, IsLetterMask;
    if ws == [] {
      infos := [];
    } else {
      var info := WordFiled(f, box, words, ws[0]);
      FiledWord(f, box, words, Idx(ws[0][0]), info);
      LinkedTail(ws);
      var rest := LinkedContinues(f, box, words, ws[1..]);
      infos := [info] + rest;
      assert WordsOf(infos) == [info.word] + WordsOf(rest);
      assert infos[1..] == rest;
      assert Continues(f, info.end, rest);
    }
  }

  predicate HasBit(infos: seq<WordInfo>, b: nat)
    requires b < MASK_BITS
  {
    exists k :: 0 <= k < |infos| && infos[k].mask[b]
  }

  lemma {:induction false} MaskAfterBits(mask: Bits32, infos: seq<WordInfo>, b: nat)
    requires b < MASK_BITS
    ensures MaskAfter(mask, infos)[b] <==> mask[b] || HasBit(infos, b)
    decreases |infos|
  {
    if infos != [] {
      MaskAfterBits(Or(mask, infos[0].mask), infos[1..], b);
      if HasBit(infos[1..], b) {
        var k :| 0 <= k < |infos[1..]| && infos[1..][k].mask[b];
        assert infos[k + 1].mask[b];
      }
      if k :| 0 <= k < |infos| && infos[k].mask[b] {
        assert k > 0 ==> infos[1..][k - 1].mask[b];
      }
    }
  }

  /** The masks of the words, their own letters. */
  ghost predicate MasksOk(box: string, infos: seq<WordInfo>) {
    forall k :: 0 <= k < |infos| ==> IsLetterMask(infos[k].mask, infos[k].word) && InBox(box, infos[k].word)
  }

  lemma BitIsLetter(mask: Bits32, letters: string, c: char)
    requires IsLetterMask(mask, letters) && Lower(c)
    ensures mask[Idx(c)] <==> c in letters
  {
    if mask[Idx(c)] {
      var k :| 0 <= k < |letters| && LetterAt(letters, k, Idx(c));
    }
    if c in letters {
      var k :| 0 <= k < |letters| && letters[k] == c;
      assert LetterAt(letters, k, Idx(c));
    }
  }

  /** Reaching the target mask is covering the box. */
  lemma TargetIsCover(box: string, target: Bits32, infos: seq<WordInfo>)
    requires IsBox(box) && IsLetterMask(target, box) && infos != [] && MasksOk(box, infos)
    ensures MaskAfter(infos[0].mask, infos[1..]) == target <==> Covers(box, WordsOf(infos))
  {
    hide IsLetterMask;
    var ws, reached := WordsOf(infos), MaskAfter(infos[0].mask, infos[1..]);
    forall c | Lower(c) ensures reached[Idx(c)] <==> Occurs(ws, c) {
      ReachedLetter(box, infos, c);
    }
    if reached == target {
      forall i | 0 <= i < |box| ensures Occurs(ws, box[i]) {
        BitIsLetter(target, box, box[i]);
      }
    }
    if Covers(box, ws) {
      forall b | 0 <= b < MASK_BITS ensures reached[b] == target[b] {
        if b < CHARACTERS {
          var c := (FIRST as int + b) as char;
          BitIsLetter(target, box, c);
          if Occurs(ws, c) {
            var k :| 0 <= k < |ws| && c in ws[k];
            var j :| 0 <= j < |ws[k]| && ws[k][j] == c;
            assert c in box;
          }
          if c in box {
            var i :| 0 <= i < |box| && box[i] == c;
          }
        } else {
          HighBitsClear(box, target, infos, b);
        }
      }
    }
  }

  lemma ReachedLetter(box: string, infos: seq<WordInfo>, c: char)
    requires infos != [] && MasksOk(box, infos) && Lower(c)
    ensures MaskAfter(infos[0].mask, infos[1..])[Idx(c)] <==> Occurs(WordsOf(infos), c)
  {
    hide IsLetterMask;
    var b := Idx(c);
    MaskAfterBits(infos[0].mask, infos[1..], b);
    forall k | 0 <= k < |infos| ensures infos[k].mask[b] <==> c in infos[k].word {
      BitIsLetter(infos[k].mask, infos[k].word, c);
    }
    assert forall k :: 0 <= k < |infos| - 1 ==> infos[1..][k] == infos[k + 1];
    if Occurs(WordsOf(infos), c) {
      var k :| 0 <= k < |infos| && c in WordsOf(infos)[k];
      assert k > 0 ==> infos[1..][k - 1].mask[b];
    }
  }

  lemma HighBitsClear(box: string, target: Bits32, infos: seq<WordInfo>, b: nat)
    requires IsBox(box) && IsLetterMask(target, box) && infos != [] && MasksOk(box, infos)
    requires CHARACTERS <= b < MASK_BITS
    ensures !target[b] && !MaskAfter(infos[0].mask, infos[1..])[b]
  {
    MaskAfterBits(infos[0].mask, infos[1..], b);
    NoHighBit(target, box, b);
    forall k | 0 <= k < |infos| ensures !infos[k].mask[b] {
      assert Lowercase(infos[k].word) by {
        forall j | 0 <= j < |infos[k].word| ensures Lower(infos[k].word[j]) {
          assert infos[k].word[j] in box;
        }
      }
      NoHighBit(infos[k].mask, infos[k].word, b);
    }
  }

  lemma NoHighBit(mask: Bits32, letters: string, b: nat)
    requires IsLetterMask(mask, letters) && Lowercase(letters) && CHARACTERS <= b < MASK_BITS
    ensures !mask[b]
  {
  }

  /** A chain of the plain solver solves the box, with words of three letters or more. */
  lemma ChainSolves(f: Filing, box: string, words: seq<string>, target: Bits32, infos: seq<WordInfo>)
    requires Loaded(f, box, words) && IsLetterMask(target, box) && Chain(f, box, target, infos)
    ensures Solves(box, words, WordsOf(infos)) && LongWords(WordsOf(infos))
  {
    hide Loaded, IsLetterMask;
    var c := infos[0].start;
    assert Continues(f, c, infos);
    ContinuesLinked(f, box, words, c, infos);
    ContinuesMasks(f, box, words, c, infos);
    LoadedBox(f, box, words);
    TargetIsCover(box, target, infos);
  }

  lemma LoadedBox(f: Filing, box: string, words: seq<string>)
    requires Loaded(f, box, words)
    ensures IsBox(box)
  {
  }

  lemma {:induction false} ContinuesMasks(f: Filing, box: string, words: seq<string>, c: char, infos: seq<WordInfo>)
    requires Loaded(f, box, words) && Continues(f, c, infos)
    ensures MasksOk(box, infos)
    decreases |infos|
  {
    hide Loaded, IsLetterMask;
    if infos != [] {
      LoadedBox(f, box, words);
      FiledWord(f, box, words, Idx(c), infos[0]);
      ContinuesMasks(f, box, words, infos[0].end, infos[1..]);
      assert infos == [infos[0]] + infos[1..];
    }
  }

  /** A solution with words of three letters or more is a chain of the plain solver. */
  lemma SolvesChain(f: Filing, box: string, words: seq<string>, target: Bits32, ws: seq<string>)
    returns (infos: seq<WordInfo>)
    requires Loaded(f, box, words) && IsLetterMask(target, box) && Solves(box, words, ws) && LongWords(ws)
    ensures Chain(f, box, target, infos) && |infos| == |ws|
  {
    hide Loaded, IsLetterMask;
    infos := LinkedContinues(f, box, words, ws);
    var c := ws[0][0];
    assert |infos| == |ws| && Continues(f, c, infos);
    LoadedBox(f, box, words);
    assert Lower(c) && infos[0] in f[Idx(c)];
    ContinuesMasks(f, box, words, c, infos);
    TargetIsCover(box, target, infos);
    FiledWord(f, box, words, Idx(c), infos[0]);
    assert Playable(box, ws[0]);
  }

  // ----- agreement

  /** Words of the list solve the box within the search limit. */
  ghost predicate Solvable(box: string, csv: string)
    requires IsBox(box)
  {
    exists ws :: Solves(box, Solve.WordList(csv), ws) && |ws| <= LIMITS.maxSearchSize
  }

  /** ... and words of three letters or more do. */
  ghost predicate SolvableLong(box: string, csv: string)
    requires IsBox(box)
  {
    exists ws :: Solves(box, Solve.WordList(csv), ws) && LongWords(ws) && |ws| <= LIMITS.maxSearchSize
  }

  /** All words of the list have three letters or more. */
  predicate LongList(csv: string) {
    forall w :: w in Solve.WordList(csv) ==> w == "" || |w| >= 3
  }

  /**
    What the plain solver's result says: a shortest solution with words of three letters or more, or
    that there is none of up to three words.
   */
  ghost predicate PlainAnswer(box: string, words: seq<string>, solution: seq<string>)
    requires IsBox(box)
  {
    && |solution| <= MAX_WORDS
    && (solution != [] ==> Solves(box, words, solution) && LongWords(solution))
    && forall ws :: Solves(box, words, ws) && LongWords(ws) && |ws| <= MAX_WORDS ==>
         solution != [] && |solution| <= |ws|
  }

  lemma SearchAnswers(f: Filing, box: string, words: seq<string>, target: Bits32, solution: seq<string>)
    requires Loaded(f, box, words) && IsLetterMask(target, box) && |solution| <= MAX_WORDS
    requires solution != [] ==> exists infos :: Chain(f, box, target, infos) && solution == WordsOf(infos)
    requires LongerThan(f, box, target, if solution == [] then MAX_WORDS else |solution| - 1)
    ensures IsBox(box) && PlainAnswer(box, words, solution)
  {
    hide Loaded, IsLetterMask, Chain, Solves, LongWords;
    LoadedBox(f, box, words);
    if solution != [] {
      var infos :| Chain(f, box, target, infos) && solution == WordsOf(infos);
      ChainSolves(f, box, words, target, infos);
    }
    forall ws | Solves(box, words, ws) && LongWords(ws) && |ws| <= MAX_WORDS
      ensures solution != [] && |solution| <= |ws|
    {
      var infos := SolvesChain(f, box, words, target, ws);
      assert Chain(f, box, target, infos);
    }
  }

  /** Words of a solution are not empty, so for the plain solver's tokens the list is the same. */
  lemma SameList(box: string, csv: string, ws: seq<string>)
    requires IsBox(box) && Plain(csv)
    ensures Solves(box, Tokens(csv, 0), ws) <==> Solves(box, Solve.WordList(csv), ws)
  {
    hide Solve.WordList, Tokens;
    TokensAreWords(csv);
    forall k | 0 <= k < |ws|
      ensures ws[k] in Tokens(csv, 0) && Playable(box, ws[k])
         <==> ws[k] in Solve.WordList(csv) && Playable(box, ws[k])
    {
    }
    assert AllPlayable(box, Tokens(csv, 0), ws) <==> AllPlayable(box, Solve.WordList(csv), ws);
  }

  lemma SolutionWordsLong(box: string, csv: string, ws: seq<string>)
    requires IsBox(box) && LongList(csv) && Solves(box, Solve.WordList(csv), ws)
    ensures LongWords(ws)
  {
    hide Solve.WordList;
  }

  /**
    Both solvers on one box and word list, as the benchmarks compare them. The first finds a solution
    exactly when there is one of up to three words, the plain one exactly when there is one of words of
    three letters or more, so they disagree exactly on the boxes that need a shorter word. On lists
    without such words they never disagree, and their first solutions are equally long.
   */
  method Compare(letters: string, csv: string, build: Build, junk: nat -> Bits32)
    returns (solutions: seq<Solve.Solution>, solution: seq<string>, disagree: bool)
    requires IsBox(letters) && Plain(csv) && Solve.Playlist(letters, Solve.WordList(csv))
    ensures solutions != [] <==> Solvable(letters, csv)
    ensures solution != [] <==> SolvableLong(letters, csv)
    ensures disagree <==> Solvable(letters, csv) && !SolvableLong(letters, csv)
    ensures solution != [] ==> |solutions[0].chain| <= |solution|
    ensures LongList(csv) ==> !disagree && (solutions != [] ==> |solutions[0].chain| == |solution|)
  {
    solutions := Solve.SolveBox(letters, csv, build, junk);
    var plain := new LetterBoxedSolver();
    solution := plain.Run(letters, csv);
    RunAnswers(plain.validWordsByStart, plain.boxLetters, plain.targetMask, letters, csv, solution);
    disagree := (solutions != []) == (solution == []);
    AnswersAgree(letters, csv, solutions, solution);
  }

  lemma RunAnswers(
    f: Filing, read: string, target: Bits32, box: string, csv: string, solution: seq<string>)
    requires IsBox(box) && Plain(csv)
    requires read == Letters(box) && IsLetterMask(target, read) && FiledAs(f, read, Tokens(csv, 0))
    requires |solution| <= MAX_WORDS
    requires solution != [] ==> exists infos :: Chain(f, read, target, infos) && solution == WordsOf(infos)
    requires LongerThan(f, read, target, if solution == [] then MAX_WORDS else |solution| - 1)
    ensures PlainAnswer(box, Tokens(csv, 0), solution)
  {
    hide Chain, LongerThan, IsLetterMask, FiledAs, Tokens, PlainAnswer, Solve.WordList;
    FoldLower(box);
    TokensAreWords(csv);
    forall k | 0 <= k < |Tokens(csv, 0)| ensures Lowercase(Tokens(csv, 0)[k]) {
      assert Tokens(csv, 0)[k] in Solve.WordList(csv);
    }
    SearchAnswers(f, box, Tokens(csv, 0), target, solution);
  }

  lemma AnswersAgree(box: string, csv: string, solutions: seq<Solve.Solution>, solution: seq<string>)
    requires IsBox(box) && Plain(csv)
    requires Solve.Shaped(solutions)
    requires Solve.Sound(box, Solve.WordList(csv), solutions) && Solve.Complete(box, Solve.WordList(csv), solutions)
    requires PlainAnswer(box, Tokens(csv, 0), solution)
    ensures solutions != [] <==> Solvable(box, csv)
    ensures solution != [] <==> SolvableLong(box, csv)
    ensures solution != [] ==> solutions != [] && |solutions[0].chain| <= |solution|
    ensures LongList(csv) && solutions != [] ==> solution != [] && |solutions[0].chain| == |solution|
  {
    hide Solves, Tokens, Solve.WordList, LongList, LongWords;
    forall ws ensures Solves(box, Tokens(csv, 0), ws) <==> Solves(box, Solve.WordList(csv), ws)
      ensures LongList(csv) && Solves(box, Solve.WordList(csv), ws) ==> LongWords(ws)
    {
      SameList(box, csv, ws);
      if LongList(csv) && Solves(box, Solve.WordList(csv), ws) {
        SolutionWordsLong(box, csv, ws);
      }
    }
    if solutions != [] {
      var chain := solutions[0].chain;
      assert Solve.WellShaped(solutions[0]);
      var ws := seq(|chain|, k requires 0 <= k < |chain| => chain[k][0]);
      assert Solve.Picks(solutions[0], ws);
      assert Solves(box, Solve.WordList(csv), ws);
    }
    if solution != [] {
      assert Solves(box, Solve.WordList(csv), solution);
    }
  }

  // ----- a box on which they disagree

  const SHORT_BOX := "abcdefghijkl"
  const SHORT_WORDS := ["adgjbehkcfi", "il"]
  const SHORT_LIST := "adgjbehkcfi,il"

  lemma ShortBoxSides(c: char)
    requires 'a' <= c <= 'l'
    ensures IsBox(SHORT_BOX) && c in SHORT_BOX
    ensures Side(SHORT_BOX, c) == (c as int - FIRST as int) / CHARS_PER_SIDE
  {
    var i := c as int - FIRST as int;
    assert forall k :: 0 <= k < 12 ==> SHORT_BOX[k] as int == FIRST as int + k;
    assert SHORT_BOX[i] == c;
  }

  lemma ShortWordList()
    ensures Solve.WordList(SHORT_LIST) == SHORT_WORDS
  {
    assert SHORT_WORDS[1..] == ["il"];
    assert JoinWith(SHORT_WORDS, ',') == SHORT_LIST;
    SlicesOfJoin(SHORT_WORDS, ',');
  }

  predicate Alternates(w: string) {
    && (forall k :: 0 <= k < |w| ==> 'a' <= w[k] <= 'l')
    && forall k :: 0 < k < |w| ==>
         (w[k - 1] as int - FIRST as int) / CHARS_PER_SIDE != (w[k] as int - FIRST as int) / CHARS_PER_SIDE
  }

  lemma ShortPlayable(w: string)
    requires w != "" && Alternates(w)
    ensures IsBox(SHORT_BOX) && Playable(SHORT_BOX, w)
  {
    ShortBoxSides('a');
    hide IsBox, Side;
    forall k | 0 <= k < |w|
      ensures w[k] in SHORT_BOX && Side(SHORT_BOX, w[k]) == (w[k] as int - FIRST as int) / CHARS_PER_SIDE
    {
      ShortBoxSides(w[k]);
    }
  }

  lemma ShortWordsAlternate()
    ensures Alternates("adgjbehkcfi") && Alternates("il")
  {
  }

  lemma ShortWordsCover()
    ensures Covers(SHORT_BOX, SHORT_WORDS)
  {
    var ws := SHORT_WORDS;
    forall i | 0 <= i < |SHORT_BOX| ensures Occurs(ws, SHORT_BOX[i]) {
      var c := SHORT_BOX[i];
      if c == 'l' {
        assert c == ws[1][1];
      } else {
        assert c in ws[0] by {
          var j := (i % 3) * 4 + i / 3;
          assert ws[0][j] == c;
        }
      }
    }
  }

  /** The only solution of this box needs the two-letter word, so only one solver finds it. */
  lemma ShortWordDisagreement()
    ensures IsBox(SHORT_BOX) && Plain(SHORT_LIST) && Solve.Playlist(SHORT_BOX, Solve.WordList(SHORT_LIST))
    ensures Solvable(SHORT_BOX, SHORT_LIST) && !SolvableLong(SHORT_BOX, SHORT_LIST)
  {
    hide Solve.WordList, Playable, IsBox, Alternates, Covers;
    var ws := SHORT_WORDS;
    ShortWordList();
    ShortWordsAlternate();
    ShortPlayable(ws[0]);
    ShortPlayable(ws[1]);
    ShortWordsCover();
    assert Meets(ws, 1);
    assert Solves(SHORT_BOX, Solve.WordList(SHORT_LIST), ws);
    forall us | Solves(SHORT_BOX, Solve.WordList(SHORT_LIST), us) && LongWords(us) ensures false {
      NoLongCover(us);
    }
  }

  lemma NoLongCover(us: seq<string>)
    requires LongWords(us) && forall k :: 0 <= k < |us| ==> us[k] in SHORT_WORDS
    ensures !Covers(SHORT_BOX, us)
  {
    assert SHORT_BOX[11] == 'l';
  }
}
