/** The word chunker of rag_utils.py: the text is split on runs of
    whitespace and the words are grouped into consecutive, non-overlapping
    windows of `size` words, each window joined by a single space. */
module Chunker {
  import opened Common
  import opened PyStr

  /** The default window size of `chunk_text`. */
  const DefaultSize: nat := 300

  /** The windows of `size` words taken from the front of `words`, each
      joined by one space; the last window holds what is left over. */
  function ChunkWords(words: seq<string>, size: nat): seq<string>
    requires size > 0
    decreases |words|
  {
    if words == [] then []
    else
      var m := Min(size, |words|);
      [Join(" ", words[..m])] + ChunkWords(words[m..], size)
  }

  /** `chunk_text(text, size)`. Python raises for `size == 0`, since
      `range(0, n, 0)` does, so the model asks for a positive size. */
  function ChunkText(text: string, size: nat := DefaultSize): seq<string>
    requires size > 0
  {
    ChunkWords(Split(text), size)
  }

  /** Splits every chunk on whitespace and concatenates the word lists. */
  function SplitAll(chunks: seq<string>): seq<string>
  {
    if chunks == [] then [] else Split(chunks[0]) + SplitAll(chunks[1..])
  }

  /** The words `[i * size, min((i + 1) * size, |words|))`. */
  function Window(words: seq<string>, size: nat, i: nat): seq<string>
    requires size > 0 && i * size <= |words|
  {
    words[i * size .. Min((i + 1) * size, |words|)]
  }

  lemma MulSucc(i: int, d: int)
    ensures (i + 1) * d == i * d + d
  {
  }

  lemma MulNat(i: nat, d: nat)
    ensures i * d >= 0
  {
  }

  /** The number of chunks is `ceil(wordcount / size)`: the least `c`
      with `c * size >= wordcount`. */
  lemma {:induction false} ChunkCount(words: seq<string>, size: nat)
    requires size > 0
    ensures var c := |ChunkWords(words, size)|;
      c * size >= |words| && (c == 0 || (c - 1) * size < |words|)
    decreases |words|
  {
    var n := |words|;
    if n == 0 {
    } else if n <= size {
      assert words[n..] == [];
    } else {
      var c' := |ChunkWords(words[size..], size)|;
      ChunkCount(words[size..], size);
      MulSucc(c', size);
      MulSucc(c' - 1, size);
    }
  }

  /** Chunk `i` is exactly the `i`-th window of `size` words, so the chunks
      are contiguous and do not overlap. */
  lemma {:induction false} ChunkAt(words: seq<string>, size: nat, i: nat)
    requires size > 0
    requires i < |ChunkWords(words, size)|
    ensures i * size < |words|
    ensures ChunkWords(words, size)[i] == Join(" ", Window(words, size, i))
    decreases i
  {
    var n := |words|;
    var m := Min(size, n);
    ChunkWordsCons(words, size);
    if i == 0 {
      assert Window(words, size, 0) == words[..m];
    } else {
      NotLastIsFull(words, size);
      ChunkWordsTail(words, size, i);
      ChunkAt(words[size..], size, i - 1);
      WindowStep(words, size, i);
    }
  }

  /** Window `i` of the words is window `i - 1` of the words after the first
      `size`. */
  lemma WindowStep(words: seq<string>, size: nat, i: nat)
    requires 0 < size <= |words| && 0 < i
    requires (i - 1) * size < |words[size..]|
    ensures i * size < |words|
    ensures Window(words, size, i) == Window(words[size..], size, i - 1)
  {
    var n := |words|;
    MulSucc(i - 1, size);
    MulSucc(i, size);
    var lo := i * size;
    var a, b := lo - size, Min(lo, n - size);
    assert Window(words[size..], size, i - 1) == words[size..][a..b];
    assert Window(words, size, i) == words[size + a .. size + b];
    SliceOfDrop(words, size, a, b);
  }

  /** A slice of a list of words holds only words. */
  lemma SliceWords(words: seq<string>, lo: nat, hi: nat)
    requires lo <= hi <= |words|
    requires forall j :: 0 <= j < |words| ==> IsWord(words[j])
    ensures forall j :: 0 <= j < hi - lo ==> IsWord(words[lo..hi][j])
  {
  }

  lemma SliceOfDrop<T>(s: seq<T>, d: nat, a: nat, b: nat)
    requires d <= |s| && a <= b <= |s| - d
    ensures s[d..][a..b] == s[d + a .. d + b]
  {
  }

  lemma SplitAllCons(chunk: string, chunks: seq<string>, first: seq<string>, rest: seq<string>)
    requires Split(chunk) == first && SplitAll(chunks) == rest
    ensures SplitAll([chunk] + chunks) == first + rest
  {
    assert ([chunk] + chunks)[1..] == chunks;
  }

  lemma ChunkWordsCons(words: seq<string>, size: nat)
    requires size > 0 && words != []
    ensures ChunkWords(words, size)
         == [Join(" ", words[..Min(size, |words|)])] + ChunkWords(words[Min(size, |words|)..], size)
  {
  }

  /** One step of the round trip: the first chunk splits back into the first
      `min(size, n)` words, and the rest of the words are still words. */
  lemma ChunkWordsStep(words: seq<string>, size: nat)
    requires size > 0 && words != []
    requires forall i :: 0 <= i < |words| ==> IsWord(words[i])
    ensures var m := Min(size, |words|);
      && (forall j :: 0 <= j < |words[m..]| ==> IsWord(words[m..][j]))
      && SplitAll(ChunkWords(words, size)) == words[..m] + SplitAll(ChunkWords(words[m..], size))
  {
    var m := Min(size, |words|);
    var first, rest := words[..m], words[m..];
    SliceWords(words, 0, m);
    assert words[0..m] == first;
    SliceWords(words, m, |words|);
    assert words[m..|words|] == rest;
    SplitJoin(first);
    ChunkWordsCons(words, size);
    SplitAllCons(Join(" ", first), ChunkWords(rest, size), first, SplitAll(ChunkWords(rest, size)));
  }

  /** Splitting every chunk again and concatenating gives back the words. */
  lemma {:induction false} ChunkWordsRoundTrip(words: seq<string>, size: nat)
    requires size > 0
    requires forall i :: 0 <= i < |words| ==> IsWord(words[i])
    ensures SplitAll(ChunkWords(words, size)) == words
    decreases |words|
  {
    if words != [] {
      var m := Min(size, |words|);
      ChunkWordsStep(words, size);
      ChunkWordsRoundTrip(words[m..], size);
      assert words == words[..m] + words[m..];
    }
  }

  /** Round trip: the chunks' words, in order, are exactly `text.split()`. */
  lemma ChunkTextRoundTrip(text: string, size: nat)
    requires size > 0
    ensures SplitAll(ChunkText(text, size)) == Split(text)
  {
    SplitWords(text);
    ChunkWordsRoundTrip(Split(text), size);
  }

  /** `chunk_text` returns `ceil(len(text.split()) / size)` chunks. */
  lemma ChunkTextCount(text: string, size: nat)
    requires size > 0
    ensures var c, n := |ChunkText(text, size)|, |Split(text)|;
      c * size >= n && (c == 0 || (c - 1) * size < n)
  {
    ChunkCount(Split(text), size);
  }

  /** Empty or whitespace-only text, and only such text, yields no chunk. */
  lemma ChunkTextEmpty(text: string, size: nat)
    requires size > 0
    ensures ChunkText(text, size) == [] <==> IsBlank(text)
  {
    SplitBlank(text);
  }

  /** The words of chunk `i`, split again, are window `i` of the text's words. */
  lemma ChunkWindow(text: string, size: nat, i: nat)
    requires size > 0
    requires i < |ChunkText(text, size)|
    ensures i * size < |Split(text)|
    ensures Split(ChunkText(text, size)[i]) == Window(Split(text), size, i)
  {
    SplitWords(text);
    ChunkWordsWindow(Split(text), size, i);
  }

  /** Chunk `i` of a list of words, split again, is window `i`. */
  lemma ChunkWordsWindow(words: seq<string>, size: nat, i: nat)
    requires size > 0
    requires forall j :: 0 <= j < |words| ==> IsWord(words[j])
    requires i < |ChunkWords(words, size)|
    ensures i * size < |words|
    ensures Split(ChunkWords(words, size)[i]) == Window(words, size, i)
  {
    ChunkAt(words, size, i);
    MulSucc(i, size);
    MulNat(i, size);
    SliceWords(words, i * size, Min((i + 1) * size, |words|));
    SplitJoin(Window(words, size, i));
  }

  /** The words of the first chunk, split again. */
  lemma FirstChunkWords(words: seq<string>, size: nat)
    requires size > 0 && words != []
    requires forall j :: 0 <= j < |words| ==> IsWord(words[j])
    ensures Split(ChunkWords(words, size)[0]) == words[..Min(size, |words|)]
  {
    ChunkWordsCons(words, size);
    SplitJoin(words[..Min(size, |words|)]);
  }

  /** Every chunk but the last takes a full window of `size` words. */
  lemma NotLastIsFull(words: seq<string>, size: nat)
    requires size > 0
    requires |ChunkWords(words, size)| > 1
    ensures |words| > size
  {
    ChunkWordsCons(words, size);
  }

  /** Dropping the first chunk leaves the chunks of the remaining words. */
  lemma ChunkWordsTail(words: seq<string>, size: nat, i: nat)
    requires size > 0 && 0 < i < |ChunkWords(words, size)|
    ensures ChunkWords(words, size)[i] == ChunkWords(words[Min(size, |words|)..], size)[i - 1]
    ensures |ChunkWords(words, size)| == |ChunkWords(words[Min(size, |words|)..], size)| + 1
  {
    ChunkWordsCons(words, size);
  }

  /** The word counts of the chunks of a word list. */
  lemma {:induction false} ChunkWordsShape(words: seq<string>, size: nat, i: nat)
    requires size > 0
    requires forall j :: 0 <= j < |words| ==> IsWord(words[j])
    requires i < |ChunkWords(words, size)|
    ensures 1 <= |Split(ChunkWords(words, size)[i])| <= size
    ensures i < |ChunkWords(words, size)| - 1 ==> |Split(ChunkWords(words, size)[i])| == size
    decreases i
  {
    if i == 0 {
      FirstChunkWords(words, size);
      if |ChunkWords(words, size)| > 1 {
        NotLastIsFull(words, size);
      }
    } else {
      var m := Min(size, |words|);
      ChunkWordsTail(words, size, i);
      ChunkWordsShape(words[m..], size, i - 1);
    }
  }

  /** Chunk `i` has `size` words if it is not the last chunk and between 1
      and `size` words if it is; no chunk is the empty string. */
  lemma ChunkShape(text: string, size: nat, i: nat)
    requires size > 0
    requires i < |ChunkText(text, size)|
    ensures i < |ChunkText(text, size)| - 1 ==> |Split(ChunkText(text, size)[i])| == size
    ensures 1 <= |Split(ChunkText(text, size)[i])| <= size
    ensures ChunkText(text, size)[i] != []
  {
    SplitWords(text);
    ChunkWordsShape(Split(text), size, i);
  }
}
