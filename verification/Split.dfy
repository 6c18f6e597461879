/** Finding the words of a separated text: the two block-wise scans, and the words they delimit. */
module Split {
  import opened Words

  // ----- positions

  /** The ascending positions of the true entries of m, counted from offset. */
  function Marks(m: seq<bool>, offset: nat): seq<nat> {
    if m == [] then [] else (if m[0] then [offset] else []) + Marks(m[1..], offset + 1)
  }

  /** Which characters are separators: `block == separator`, lane by lane. */
  function Matches(data: string, separator: char): (m: seq<bool>)
    ensures |m| == |data| && forall i :: 0 <= i < |m| ==> m[i] == (data[i] == separator)
  {
    seq(|data|, i requires 0 <= i < |data| => data[i] == separator)
  }

  function Positions(data: string, separator: char): seq<nat> {
    Marks(Matches(data, separator), 0)
  }

  lemma MarksCons(m: seq<bool>, offset: nat)
    requires m != []
    ensures Marks(m, offset) == if m[0] then [offset] + Marks(m[1..], offset + 1) else Marks(m[1..], offset + 1)
  {
  }

  lemma MarksNil(offset: nat)
    ensures Marks([], offset) == []
  {
  }

  lemma {:induction false} MarksExact(m: seq<bool>, offset: nat)
    ensures forall p :: p in Marks(m, offset) <==> offset <= p < offset + |m| && m[p - offset]
    ensures forall j, k :: 0 <= j < k < |Marks(m, offset)| ==> Marks(m, offset)[j] < Marks(m, offset)[k]
  {
    if m != [] {
      var later := Marks(m[1..], offset + 1);
      MarksExact(m[1..], offset + 1);
      forall p ensures p in Marks(m, offset) <==> offset <= p < offset + |m| && m[p - offset] {
        assert p in Marks(m, offset) <==> (m[0] && p == offset) || p in later;
        assert p in later <==> offset + 1 <= p < offset + |m| && m[1..][p - offset - 1];
      }
      assert forall k :: 0 <= k < |later| ==> later[k] in later;
    }
  }

  /** Positions lists every separator's position, nothing else, strictly ascending. */
  lemma PositionsExact(data: string, separator: char)
    ensures forall p :: p in Positions(data, separator) <==> 0 <= p < |data| && data[p] == separator
    ensures forall j, k :: 0 <= j < k < |Positions(data, separator)| ==>
      Positions(data, separator)[j] < Positions(data, separator)[k]
  {
    MarksExact(Matches(data, separator), 0);
  }

  lemma {:induction false} MarksAppend(a: seq<bool>, b: seq<bool>, offset: nat)
    ensures Marks(a + b, offset) == Marks(a, offset) + Marks(b, offset + |a|)
  {
    hide *;
    if a == [] {
      MarksNil(offset);
      assert a + b == b;
    } else {
      assert (a + b)[1..] == a[1..] + b;
      MarksCons(a, offset);
      MarksCons(a + b, offset);
      MarksAppend(a[1..], b, offset + 1);
    }
  }

  lemma MatchesAppend(a: string, b: string, separator: char)
    ensures Matches(a + b, separator) == Matches(a, separator) + Matches(b, separator)
  {
  }

  /** The positions up to j are those up to i and those of the block between. */
  lemma PositionsBlock(data: string, separator: char, i: nat, j: nat)
    requires i <= j <= |data|
    ensures Positions(data[..j], separator)
         == Positions(data[..i], separator) + Marks(Matches(data[i..j], separator), i)
  {
    assert data[..j] == data[..i] + data[i..j];
    MatchesAppend(data[..i], data[i..j], separator);
    MarksAppend(Matches(data[..i], separator), Matches(data[i..j], separator), 0);
  }

  // ----- the form with 64-bit masks

  const BLOCK_SIZE := 64

  /** `countr_zero` finds the first mark, and `mask &= mask - 1` leaves the others. */
  lemma {:induction false} TakeLowestMark(mask: Word, offset: nat)
    requires !IsZero(mask)
    ensures Marks(mask, offset) == [offset + TrailingZeros(mask)] + Marks(And(mask, Dec(mask)), offset)
  {
    hide *;
    LowestBitCleared(mask);
    var tail, rest := mask[1..], And(mask, Dec(mask));
    MarksCons(mask, offset);
    MarksCons(rest, offset);
    if !mask[0] {
      TakeLowestMark(tail, offset + 1);
    }
  }

  lemma LowestBitCleared(mask: Word)
    requires !IsZero(mask)
    ensures mask != [] && !And(mask, Dec(mask))[0]
    ensures
      var tail := mask[1..];
      if mask[0] then And(mask, Dec(mask))[1..] == tail && TrailingZeros(mask) == 0
      else
        && And(mask, Dec(mask))[1..] == And(tail, Dec(tail))
        && !IsZero(tail) && TrailingZeros(mask) == 1 + TrailingZeros(tail)
  {
    var i :| 0 <= i < |mask| && mask[i];
    assert !mask[0] ==> mask[1..][i - 1];
    hide IsZero, And;
    AndCons(mask, Dec(mask));
    if mask[0] {
      AndSelf(mask[1..]);
    }
  }

  lemma AndCons(a: Word, b: Word)
    requires |a| == |b| > 0
    ensures And(a, b)[0] == (a[0] && b[0]) && And(a, b)[1..] == And(a[1..], b[1..])
  {
  }

  lemma AndSelf(a: Word)
    ensures And(a, a) == a
  {
  }

  lemma {:induction false} NoMarks(mask: Word, offset: nat)
    requires IsZero(mask)
    ensures Marks(mask, offset) == []
  {
    if mask != [] {
      assert IsZero(mask[1..]);
      NoMarks(mask[1..], offset + 1);
    }
  }

  method ExtractSeparatorIdxs(separatorIdxs: seq<nat>, offset: nat, block: Word) returns (out: seq<nat>)
    ensures out == separatorIdxs + Marks(block, offset)
  {
    out := separatorIdxs;
    var mask := block;
    while !IsZero(mask)
      invariant |mask| == |block| && out + Marks(mask, offset) == separatorIdxs + Marks(block, offset)
      decreases |Marks(mask, offset)|
    {
      TakeLowestMark(mask, offset);
      out := out + [offset + TrailingZeros(mask)];
      mask := And(mask, Dec(mask));
    }
    NoMarks(mask, offset);
  }

  /** The end of the text, rounded up to whole blocks; a text of whole blocks gets one more. */
  function PaddedEnd(n: nat): (r: nat)
    ensures n < r <= n + BLOCK_SIZE && r % BLOCK_SIZE == 0
  {
    n / BLOCK_SIZE * BLOCK_SIZE + BLOCK_SIZE
  }

  /** The positions of the zero padding after the text. */
  function Padding(n: nat, end: nat): (r: seq<nat>)
    requires n <= end
    ensures |r| == end - n && forall k :: 0 <= k < |r| ==> r[k] == n + k
  {
    seq(end - n, k requires 0 <= k => n + k)
  }

  lemma {:induction false} PaddingMarks(n: nat, offset: nat, separator: char)
    ensures Marks(Matches(seq(n, _ => '\0'), separator), offset)
         == if separator == '\0' then Padding(offset, offset + n) else []
  {
    var m := Matches(seq(n, _ => '\0'), separator);
    if n > 0 {
      assert m[1..] == Matches(seq(n - 1, _ => '\0'), separator);
      PaddingMarks(n - 1, offset + 1, separator);
    }
  }

  /** What is found in the text and its padding: a NUL separator is in the padding as well. */
  function PaddedPositions(data: string, separator: char): seq<nat> {
    Positions(data, separator) + if separator == '\0' then Padding(|data|, PaddedEnd(|data|)) else []
  }

  /** The form with masks returns exactly the separators' positions for every separator but NUL. */
  lemma PaddingFoundForNul(data: string, separator: char)
    ensures PaddedPositions(data, separator) == Positions(data, separator) <==> separator != '\0'
    ensures PaddedPositions("", '\0') != Positions("", '\0') == []
  {
    assert Padding(|data|, PaddedEnd(|data|))[0] == |data|;
    assert separator == '\0' ==> |PaddedPositions(data, separator)| > |Positions(data, separator)|;
    assert |PaddedPositions("", '\0')| > |Positions("", '\0')|;
  }

  /** Compares block by block and takes each mask apart from its lowest bit upward. */
  method SplitBlocks(data: string, separator: char) returns (separatorIdxs: seq<nat>)
    ensures separatorIdxs == PaddedPositions(data, separator)
  {
    separatorIdxs := [];
    var blocks := |data| / BLOCK_SIZE;
    var uncheckedEnd := BLOCK_SIZE * blocks;
    var i := 0;
    while i < uncheckedEnd
      invariant i <= uncheckedEnd && i % BLOCK_SIZE == 0
      invariant separatorIdxs == Positions(data[..i], separator)
    {
      PositionsBlock(data, separator, i, i + BLOCK_SIZE);
      separatorIdxs := ExtractSeparatorIdxs(separatorIdxs, i, Matches(data[i..i + BLOCK_SIZE], separator));
      i := i + BLOCK_SIZE;
    }
    var lastChars := data[uncheckedEnd..] + seq(BLOCK_SIZE - (|data| - uncheckedEnd), _ => '\0');
    separatorIdxs := ExtractSeparatorIdxs(separatorIdxs, uncheckedEnd, Matches(lastChars, separator));
    LastBlock(data, separator, uncheckedEnd);
  }

  lemma LastBlock(data: string, separator: char, u: nat)
    requires u <= |data| < u + BLOCK_SIZE
    ensures
      var lastChars := data[u..] + seq(BLOCK_SIZE - (|data| - u), _ => '\0');
      Positions(data[..u], separator) + Marks(Matches(lastChars, separator), u)
      == Positions(data, separator) + if separator == '\0' then Padding(|data|, u + BLOCK_SIZE) else []
  {
    hide Marks, Matches, Positions, Padding;
    var last, padding := data[u..], seq(BLOCK_SIZE - (|data| - u), _ => '\0');
    assert data[..|data|] == data && data[u..|data|] == last;
    PositionsBlock(data, separator, u, |data|);
    MatchesAppend(last, padding, separator);
    MarksAppend(Matches(last, separator), Matches(padding, separator), u);
    PaddingMarks(|padding|, |data|, separator);
  }

  // ----- the branchless form

  const SCALAR_BLOCK_SIZE := 256

  /** Compacts the positions of a block in a buffer: always writes, and advances only on a separator. */
  method SplitScalar(data: string, separator: char) returns (separatorIdxs: seq<nat>)
    ensures separatorIdxs == Positions(data, separator)
  {
    separatorIdxs := [];
    var blockSeparatorIdxs := new nat[SCALAR_BLOCK_SIZE];
    var i := 0;
    while i < |data|
      invariant separatorIdxs == Positions(data[..if i < |data| then i else |data|], separator)
    {
      var blockEnd := if i + SCALAR_BLOCK_SIZE < |data| then i + SCALAR_BLOCK_SIZE else |data|;
      var separatorC := 0;
      for j := i to blockEnd
        invariant separatorC <= j - i
        invariant blockSeparatorIdxs[..separatorC] == Marks(Matches(data[i..j], separator), i)
      {
        AnotherCharacter(data, separator, i, j);
        blockSeparatorIdxs[separatorC] := j;
        separatorC := separatorC + if data[j] == separator then 1 else 0;
      }
      PositionsBlock(data, separator, i, blockEnd);
      separatorIdxs := separatorIdxs + blockSeparatorIdxs[..separatorC];
      i := i + SCALAR_BLOCK_SIZE;
    }
    assert data[..|data|] == data;
  }

  lemma AnotherCharacter(data: string, separator: char, i: nat, j: nat)
    requires i <= j < |data|
    ensures Marks(Matches(data[i..j + 1], separator), i)
         == Marks(Matches(data[i..j], separator), i) + if data[j] == separator then [j] else []
  {
    assert data[i..j + 1] == data[i..j] + [data[j]];
    MatchesAppend(data[i..j], [data[j]], separator);
    MarksAppend(Matches(data[i..j], separator), Matches([data[j]], separator), i);
    assert Matches([data[j]], separator)[1..] == [];
  }

  // ----- word ends

  /** Whether the build has a simd library. */
  datatype Build = Simd | Scalar

  /** The specification: every separator ends a word, and so does the end of the text. */
  function EndsOf(data: string, separator: char): seq<nat> {
    Positions(data, separator) + [|data|]
  }

  /** Meets the specification except on a NUL separator with a simd build, where one padding size hides it. */
  method WordEnds(data: string, separator: char, build: Build) returns (wordEnds: seq<nat>)
    ensures wordEnds == EndsOf(data, separator)
            <==> build == Scalar || separator != '\0' || |data| % BLOCK_SIZE == BLOCK_SIZE - 1
  {
    var split;
    if build == Simd {
      split := SplitBlocks(data, separator);
    } else {
      split := SplitScalar(data, separator);
    }
    wordEnds := split;
    LastPosition(data, separator);
    if wordEnds == [] || wordEnds[|wordEnds| - 1] != |data| {
      wordEnds := wordEnds + [|data|];
    }
    assert build == Simd && separator == '\0' && |data| % BLOCK_SIZE == BLOCK_SIZE - 1 ==>
      Padding(|data|, PaddedEnd(|data|)) == [|data|];
  }

  lemma LastPosition(data: string, separator: char)
    ensures
      var p := Positions(data, separator);
      p != [] ==> p[|p| - 1] < |data|
  {
    PositionsExact(data, separator);
    var p := Positions(data, separator);
    assert p != [] ==> p[|p| - 1] in p;
  }

  // ----- words

  /** Where begin and end follow each other, a word may lie between. */
  predicate Delimits(ends: seq<nat>, begin: nat, n: nat) {
    ends != [] ==> begin <= ends[0] <= n && Delimits(ends[1..], ends[0] + 1, n)
  }

  /** The slices the ends delimit. */
  function Slices(data: string, begin: nat, ends: seq<nat>): seq<string>
    requires Delimits(ends, begin, |data|)
    decreases |ends|
  {
    if ends == [] then [] else [data[begin..ends[0]]] + Slices(data, ends[0] + 1, ends[1..])
  }

  function JoinWith(words: seq<string>, separator: char): string {
    if words == [] then "" else if |words| == 1 then words[0]
    else words[0] + [separator] + JoinWith(words[1..], separator)
  }

  predicate Free(words: seq<string>, separator: char) {
    forall k :: 0 <= k < |words| ==> separator !in words[k]
  }

  function EndsFrom(data: string, separator: char, begin: nat): seq<nat>
    requires begin <= |data|
  {
    Marks(Matches(data[begin..], separator), begin) + [|data|]
  }

  /** The ends seen from one character further. */
  lemma EndsFromNext(data: string, separator: char, begin: nat)
    requires begin < |data|
    ensures EndsFrom(data, separator, begin)
         == (if data[begin] == separator then [begin] else []) + EndsFrom(data, separator, begin + 1)
  {
    assert Matches(data[begin..], separator)[1..] == Matches(data[begin + 1..], separator);
  }

  lemma {:induction false} SlicesFrom(data: string, separator: char, begin: nat)
    requires begin <= |data|
    ensures
      var ends := EndsFrom(data, separator, begin);
      Delimits(ends, begin, |data|) &&
      var words := Slices(data, begin, ends);
      words != [] && Free(words, separator) && JoinWith(words, separator) == data[begin..]
    decreases |data| - begin
  {
    var ends := EndsFrom(data, separator, begin);
    if begin == |data| {
      assert ends == [begin];
      assert Slices(data, begin, ends) == [data[begin..begin]];
    } else {
      EndsFromNext(data, separator, begin);
      SlicesFrom(data, separator, begin + 1);
      var ends' := EndsFrom(data, separator, begin + 1);
      var words' := Slices(data, begin + 1, ends');
      if data[begin] == separator {
        assert ends[1..] == ends';
        assert Slices(data, begin, ends) == [data[begin..begin]] + words';
        assert JoinWith([""] + words', separator) == [separator] + JoinWith(words', separator) by {
          assert ([""] + words')[1..] == words';
        }
        assert data[begin..] == [separator] + data[begin + 1..];
      } else {
        assert ends == ends' && data[begin..] == [data[begin]] + data[begin + 1..];
        LongerWord(data, separator, begin, ends');
      }
    }
  }

  lemma LongerWord(data: string, separator: char, begin: nat, ends: seq<nat>)
    requires begin < |data| && data[begin] != separator && ends != [] && Delimits(ends, begin + 1, |data|)
    ensures Delimits(ends, begin, |data|)
    ensures
      var words, words' := Slices(data, begin, ends), Slices(data, begin + 1, ends);
      && words == [[data[begin]] + words'[0]] + words'[1..]
      && (Free(words', separator) ==> Free(words, separator))
      && JoinWith(words, separator) == [data[begin]] + JoinWith(words', separator)
  {
    var words, words' := Slices(data, begin, ends), Slices(data, begin + 1, ends);
    assert data[begin..ends[0]] == [data[begin]] + data[begin + 1..ends[0]];
    assert words[1..] == words'[1..];
  }

  /** Joining the delimited words gives the text back, and no word holds a separator. */
  lemma JoinSlices(data: string, separator: char)
    ensures
      var ends := EndsOf(data, separator);
      Delimits(ends, 0, |data|) &&
      var words := Slices(data, 0, ends);
      words != [] && Free(words, separator) && JoinWith(words, separator) == data
  {
    SlicesFrom(data, separator, 0);
    assert data[0..] == data;
  }

  lemma {:induction false} JoinInjective(a: seq<string>, b: seq<string>, separator: char)
    requires a != [] && b != [] && Free(a, separator) && Free(b, separator)
    requires JoinWith(a, separator) == JoinWith(b, separator)
    ensures a == b
  {
    var data := JoinWith(a, separator);
    FirstEnd(a, separator);
    FirstEnd(b, separator);
    if |a| == 1 || |b| == 1 {
      assert |a| == |b| == 1;
    } else {
      assert data[..|a[0]|] == a[0] && data[..|b[0]|] == b[0];
      assert |a[0]| == |b[0]|;
      assert JoinWith(a[1..], separator) == data[|a[0]| + 1..] == JoinWith(b[1..], separator);
      assert Free(a[1..], separator) && Free(b[1..], separator);
      JoinInjective(a[1..], b[1..], separator);
      assert a == [a[0]] + a[1..] && b == [b[0]] + b[1..];
    }
  }

  /** A joined list of several words has its first separator behind the first word. */
  lemma FirstEnd(a: seq<string>, separator: char)
    requires a != [] && Free(a, separator)
    ensures
      var data := JoinWith(a, separator);
      if |a| == 1 then separator !in data
      else |a[0]| < |data| && data[|a[0]|] == separator && forall i :: 0 <= i < |a[0]| ==> data[i] != separator
  {
  }

  /** The words of a joined list are the list. */
  lemma SlicesOfJoin(words: seq<string>, separator: char)
    requires words != [] && Free(words, separator)
    ensures
      var data := JoinWith(words, separator);
      var ends := EndsOf(data, separator);
      Delimits(ends, 0, |data|) && Slices(data, 0, ends) == words
  {
    var data := JoinWith(words, separator);
    JoinSlices(data, separator);
    JoinInjective(Slices(data, 0, EndsOf(data, separator)), words, separator);
  }
}
