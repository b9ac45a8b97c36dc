/**
 * geminiTagGenerator.js: the tags of a news article, taken from the comma-separated
 * reply of an external text model, or, when that call fails, from the article's title.
 * The external call itself is not modelled: its reply is the parameter `reply`, and
 * `None` stands for any failure (network, quota, a response without text).
 */
module TagGenerator {
  import opened Wrappers
  import opened Text

  /** The fallback keeps title words strictly longer than this many characters ... */
  const MinExclusiveWordLength: nat := 4
  /** ... and at most this many of them. */
  const FallbackLimit: nat := 5

  function Min(a: nat, b: nat): nat {
    if a <= b then a else b
  }

  // ---------------------------------------------------------------- success path

  /** A tag the success path can return unchanged: trimmed, lower-case, free of commas. */
  predicate IsNormalTag(t: string) {
    IsTrimmed(t) && NoUpper(t) && ',' !in t
  }

  /** One piece of the reply: `tag.trim().toLowerCase()`. */
  function NormalizeTag(piece: string): (tag: string)
    ensures IsTrimmed(tag) && NoUpper(tag)
  {
    ToLowerKeeps(Trim(piece), ',');
    ToLower(Trim(piece))
  }

  /** Normalizing a comma-free piece gives a normal tag. */
  lemma NormalizeTagNormal(piece: string)
    requires ',' !in piece
    ensures IsNormalTag(NormalizeTag(piece))
  {
    TrimMembers(piece);
    ToLowerKeeps(Trim(piece), ',');
  }

  function NormalizeAll(pieces: seq<string>): (tags: seq<string>)
    ensures |tags| == |pieces|
    ensures forall k :: 0 <= k < |pieces| ==> tags[k] == NormalizeTag(pieces[k])
  {
    if pieces == [] then [] else [NormalizeTag(pieces[0])] + NormalizeAll(pieces[1..])
  }

  lemma NormalizeAllNormal(pieces: seq<string>)
    requires forall k :: 0 <= k < |pieces| ==> ',' !in pieces[k]
    ensures forall k :: 0 <= k < |pieces| ==> IsNormalTag(NormalizeAll(pieces)[k])
  {
    forall k | 0 <= k < |pieces| ensures IsNormalTag(NormalizeAll(pieces)[k]) {
      NormalizeTagNormal(pieces[k]);
    }
  }

  /**
   * `text.trim().split(",").map(tag => tag.trim().toLowerCase())`: one tag per comma-separated
   * piece of the trimmed reply, so never an empty list, and every tag trimmed, lower-case and
   * free of commas.
   */
  function ParseReply(text: string): (tags: seq<string>)
    ensures |tags| == Count(Trim(text), ',') + 1
    ensures forall k :: 0 <= k < |tags| ==> IsNormalTag(tags[k])
  {
    NormalizeAllNormal(Split(Trim(text), ','));
    NormalizeAll(Split(Trim(text), ','))
  }

  /** The first character of a join is that of its first piece, or the separator when that piece is empty. */
  lemma {:induction false} JoinEnds(pieces: seq<string>, sep: char)
    requires |pieces| >= 1
    ensures var s := Join(pieces, sep);
      (s != [] ==> s[0] == (if pieces[0] != [] then pieces[0][0] else sep)) &&
      (s != [] ==> s[|s| - 1] == (if pieces[|pieces| - 1] != [] then pieces[|pieces| - 1][|pieces[|pieces| - 1]| - 1] else sep))
  {
    if |pieces| > 1 {
      JoinEnds(pieces[1..], sep);
    }
  }

  /** Joining pieces whose outer ends are trimmed with a non-blank separator gives a trimmed string. */
  lemma JoinTrimmed(pieces: seq<string>, sep: char)
    requires |pieces| >= 1 && !IsWhitespace(sep)
    requires IsTrimmed(pieces[0]) && IsTrimmed(pieces[|pieces| - 1])
    ensures IsTrimmed(Join(pieces, sep))
  {
    var s := Join(pieces, sep);
    JoinEnds(pieces, sep);
    if s != [] {
      var first, last := pieces[0], pieces[|pieces| - 1];
      assert first != [] ==> !IsWhitespace(first[0]);
      assert last != [] ==> !IsWhitespace(last[|last| - 1]);
      assert !IsWhitespace(s[0]);
      assert !IsWhitespace(s[|s| - 1]);
    }
  }

  lemma ParseReplyOf(text: string, pieces: seq<string>)
    requires Split(Trim(text), ',') == pieces
    ensures ParseReply(text) == NormalizeAll(pieces)
  {
  }

  /** Normal tags joined by commas make a trimmed reply that splits back into those tags. */
  lemma JoinNormal(tags: seq<string>)
    requires |tags| >= 1
    requires forall k :: 0 <= k < |tags| ==> IsNormalTag(tags[k])
    ensures Split(Trim(Join(tags, ',')), ',') == tags
  {
    assert IsNormalTag(tags[0]) && IsNormalTag(tags[|tags| - 1]);
    JoinTrimmed(tags, ',');
    TrimOfTrimmed(Join(tags, ','));
    SplitJoin(tags, ',');
  }

  /** A reply that already lists normal tags, separated by commas, parses back to exactly those tags. */
  lemma ParseReplyRoundTrip(tags: seq<string>)
    requires |tags| >= 1
    requires forall k :: 0 <= k < |tags| ==> IsNormalTag(tags[k])
    ensures ParseReply(Join(tags, ',')) == tags
  {
    JoinNormal(tags);
    ParseReplyOf(Join(tags, ','), tags);
    NormalizeAllOfNormal(tags);
  }

  lemma NormalTagFixed(tag: string)
    requires IsNormalTag(tag)
    ensures NormalizeTag(tag) == tag
  {
    TrimOfTrimmed(tag);
    ToLowerOfLower(tag);
  }

  lemma NormalizeAllOfNormal(tags: seq<string>)
    requires forall k :: 0 <= k < |tags| ==> IsNormalTag(tags[k])
    ensures NormalizeAll(tags) == tags
  {
    forall k | 0 <= k < |tags| ensures NormalizeTag(tags[k]) == tags[k] {
      NormalTagFixed(tags[k]);
    }
  }

  // ---------------------------------------------------------------- fallback path

  /** `words.filter(word => word.length > 4)`. */
  function LongWords(words: seq<string>): (long: seq<string>)
    ensures |long| <= |words|
    ensures forall k :: 0 <= k < |long| ==> |long[k]| > MinExclusiveWordLength
  {
    if words == [] then []
    else if |words[0]| > MinExclusiveWordLength then [words[0]] + LongWords(words[1..])
    else LongWords(words[1..])
  }

  /** The filter keeps a word exactly when it is longer than four characters. */
  lemma {:induction false} LongWordsMembers(words: seq<string>, w: string)
    ensures w in LongWords(words) <==> w in words && |w| > MinExclusiveWordLength
  {
    if words != [] {
      LongWordsMembers(words[1..], w);
      assert w in words <==> w == words[0] || w in words[1..];
    }
  }

  /** The positions of the words the filter keeps: those longer than four characters. */
  ghost function LongPositions(words: seq<string>): set<nat> {
    set i: nat | i < |words| && |words[i]| > MinExclusiveWordLength
  }

  lemma {:induction false} LongWordsAppend(words: seq<string>, w: string)
    ensures LongWords(words + [w]) == LongWords(words) + (if |w| > MinExclusiveWordLength then [w] else [])
  {
    if words != [] {
      assert (words + [w])[1..] == words[1..] + [w];
      LongWordsAppend(words[1..], w);
    } else {
      assert [w][1..] == [];
    }
  }

  /** The filter keeps every long word, repeats included: one kept word per long position. */
  lemma {:induction false} LongWordsCount(words: seq<string>)
    ensures |LongWords(words)| == |LongPositions(words)|
    decreases |words|
  {
    if words != [] {
      var n := |words| - 1;
      var front := words[..n];
      LongWordsCount(front);
      assert words == front + [words[n]];
      LongWordsAppend(front, words[n]);
      var before := LongPositions(front);
      if |words[n]| > MinExclusiveWordLength {
        assert LongPositions(words) == before + {n};
      } else {
        assert LongPositions(words) == before;
      }
    }
  }

  /** `a` is `b` with some elements left out, order kept (greedy matching). */
  predicate IsSubsequence(a: seq<string>, b: seq<string>) {
    if a == [] then true
    else if b == [] then false
    else if a[0] == b[0] then IsSubsequence(a[1..], b[1..])
    else IsSubsequence(a, b[1..])
  }

  lemma {:induction false} LongWordsInOrder(words: seq<string>)
    ensures IsSubsequence(LongWords(words), words)
  {
    if words != [] {
      LongWordsInOrder(words[1..]);
    }
  }

  lemma {:induction false} PrefixOfSubsequence(a: seq<string>, b: seq<string>, n: nat)
    requires n <= |a| && IsSubsequence(a, b)
    ensures IsSubsequence(a[..n], b)
  {
    if n > 0 {
      if a[0] == b[0] {
        PrefixOfSubsequence(a[1..], b[1..], n - 1);
        assert a[..n][1..] == a[1..][..n - 1];
      } else {
        PrefixOfSubsequence(a, b[1..], n);
      }
    }
  }

  /** `words.map(w => w.toLowerCase())`. */
  function Lowered(words: seq<string>): (lowered: seq<string>)
    ensures |lowered| == |words|
    ensures forall k :: 0 <= k < |words| ==> lowered[k] == ToLower(words[k])
  {
    if words == [] then [] else [ToLower(words[0])] + Lowered(words[1..])
  }

  /**
   * `title.split(" ").filter(word => word.length > 4).slice(0, 5).map(w => w.toLowerCase())`:
   * at most five tags, each longer than four characters, lower-case and free of spaces
   * (so the empty pieces between consecutive spaces never appear).
   */
  function FallbackTags(title: string): (tags: seq<string>)
    ensures |tags| == Min(FallbackLimit, |LongWords(Split(title, ' '))|)
    ensures forall k :: 0 <= k < |tags| ==>
      |tags[k]| > MinExclusiveWordLength && NoUpper(tags[k]) && ' ' !in tags[k] && tags[k] != []
  {
    var words := Split(title, ' ');
    var long := LongWords(words);
    var first := long[..Min(FallbackLimit, |long|)];
    forall k | 0 <= k < |first| ensures ' ' !in ToLower(first[k]) {
      assert first[k] == long[k] && long[k] in long;
      LongWordsMembers(words, long[k]);
      var j :| 0 <= j < |words| && words[j] == first[k];
      ToLowerKeeps(first[k], ' ');
    }
    Lowered(first)
  }

  /** The fallback tags are the lower-cased first long words of the title, in the title's order. */
  lemma FallbackInTitleOrder(title: string)
    ensures var words := Split(title, ' ');
      var n := |FallbackTags(title)|;
      n <= |LongWords(words)| &&
      FallbackTags(title) == Lowered(LongWords(words)[..n]) &&
      IsSubsequence(LongWords(words)[..n], words)
  {
    var words := Split(title, ' ');
    LongWordsInOrder(words);
    PrefixOfSubsequence(LongWords(words), words, |FallbackTags(title)|);
  }

  /** With at most five long words in the title, the fallback keeps all of them. */
  lemma FallbackKeepsAllFew(title: string)
    requires |LongWords(Split(title, ' '))| <= FallbackLimit
    ensures FallbackTags(title) == Lowered(LongWords(Split(title, ' ')))
  {
    var long := LongWords(Split(title, ' '));
    assert long[..Min(FallbackLimit, |long|)] == long;
  }

  lemma FallbackExample(title: string)
    requires title == "The Quick Brown Fox Jumps"
    ensures FallbackTags(title) == ["quick", "brown", "jumps"]
  {
    ExampleSplit(title);
    ExampleLongWords();
    FallbackKeepsAllFew(title);
    ExampleLowered();
  }

  lemma ExampleSplit(title: string)
    requires title == "The Quick Brown Fox Jumps"
    ensures Split(title, ' ') == ["The", "Quick", "Brown", "Fox", "Jumps"]
  {
    var words := ["The", "Quick", "Brown", "Fox", "Jumps"];
    assert Join(words, ' ') == title;
    SplitJoin(words, ' ');
  }

  lemma ExampleLongWords()
    ensures LongWords(["The", "Quick", "Brown", "Fox", "Jumps"]) == ["Quick", "Brown", "Jumps"]
  {
    var words := ["The", "Quick", "Brown", "Fox", "Jumps"];
    assert LongWords(words[4..]) == ["Jumps"];
    assert LongWords(words[3..]) == ["Jumps"];
    assert LongWords(words[2..]) == ["Brown", "Jumps"];
    assert LongWords(words[1..]) == ["Quick", "Brown", "Jumps"];
  }

  lemma ExampleLowered()
    ensures Lowered(["Quick", "Brown", "Jumps"]) == ["quick", "brown", "jumps"]
  {
    ExampleLowerWord("Quick", "quick");
    ExampleLowerWord("Brown", "brown");
    ExampleLowerWord("Jumps", "jumps");
  }

  lemma ExampleLowerWord(word: string, lower: string)
    requires |word| == |lower| > 0
    requires word[0] as int + 32 == lower[0] as int && IsUpper(word[0])
    requires word[1..] == lower[1..] && NoUpper(word[1..])
    ensures ToLower(word) == lower
  {
    ToLowerOfLower(word[1..]);
    assert lower == [lower[0]] + lower[1..];
  }

  // ---------------------------------------------------------------- the whole function

  /**
   * `generateTagsWithGemini(title, url)`: the parsed reply when the external call answers,
   * the title fallback otherwise; a failure never reaches the caller. `url` only enters
   * the prompt, so it does not influence the result here.
   */
  function GenerateTags(title: string, url: string, reply: Option<string>): (tags: seq<string>)
    ensures forall k :: 0 <= k < |tags| ==> NoUpper(tags[k])
    ensures reply.Some? ==> |tags| >= 1 && forall k :: 0 <= k < |tags| ==> IsNormalTag(tags[k])
    ensures reply.None? ==> |tags| <= FallbackLimit && forall k :: 0 <= k < |tags| ==> |tags[k]| > MinExclusiveWordLength
  {
    match reply
    case Some(text) => ParseReply(text)
    case None => FallbackTags(title)
  }
}
