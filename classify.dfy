/**
 * The item classifier, index.js:23-61: `extractItemText`, `extractLineText`
 * and `extractStoryText`, which walk a page's story and feed the two global
 * counters `items` and `words`. The methods change the counters as the
 * source does; the functions beside them give the keys and words, in order,
 * that the methods count, and the lemmas say what ends up in the counters.
 */
module Classify {
  import opened Wrappers
  import opened Chars
  import opened Text
  import opened Counting

  /** A story item as far as the classifier looks at it: whether it has an
      own `type` and an own `text` property, and their (string) values. */
  datatype Item = Item(kind: Option<string>, text: Option<string>)

  /** The key counted for an item without a `type`. */
  const TypeMissing: string := "type missing"

  /** The `case` labels that send an item's text to `extractItemText`. */
  predicate IsRichText(kind: string)
    ensures kind == "audio" || kind == "video" || kind == "frame" ==> !IsRichText(kind)
  {
    kind == "paragraph" || kind == "markdown" || kind == "html" || kind == "reference"
  }

  // ---------------------------------------------------------------------
  // What the classifier counts

  /** The key `items.count` receives for `item`. */
  function KeyOf(item: Item): (r: string)
    ensures r == [] <==> item.kind == Some([])
  {
    if item.kind.Some? then item.kind.value else TypeMissing
  }

  /** The keys `items.count` receives, one per item, in story order. */
  function StoryKeys(story: seq<Item>): (r: seq<string>)
    decreases |story|
    ensures |r| == |story|
    ensures forall i :: 0 <= i < |story| ==>
      r[i] == if story[i].kind.Some? then story[i].kind.value else TypeMissing
  {
    if story == [] then [] else StoryKeys(story[..|story| - 1]) + [KeyOf(story[|story| - 1])]
  }

  /** The words `extractLineText` counts for each line that does not look like
      a header, in order. */
  function LinesWords(lines: seq<string>): (r: seq<string>)
    ensures (forall k :: 0 <= k < |lines| ==> IsHeaderLine(lines[k])) ==> r == []
    decreases |lines|
  {
    if lines == [] then []
    else
      var last := lines[|lines| - 1];
      LinesWords(lines[..|lines| - 1]) + (if IsHeaderLine(last) then [] else LineWords(last))
  }

  /** The words counted for the text of an item of type `kind`. */
  function TextWords(kind: string, text: string): (r: seq<string>)
    ensures IsRichText(kind) ==> |r| >= 1
  {
    if IsRichText(kind) then ItemWords(text) else LinesWords(SplitLines(text))
  }

  /** The words `words.count` receives for `item`, in order. */
  function WordsOf(item: Item): (r: seq<string>)
    ensures r != [] ==> item.kind.Some? && item.text.Some?
    ensures item.kind.Some? && item.text.Some? && IsRichText(item.kind.value) ==> r != []
  {
    if item.kind.Some? && item.text.Some? then TextWords(item.kind.value, item.text.value) else []
  }

  /** The words `words.count` receives for a story, in order. */
  function StoryWords(story: seq<Item>): (r: seq<string>)
    ensures (forall k :: 0 <= k < |story| ==> story[k].text.None?) ==> r == []
    decreases |story|
  {
    if story == [] then [] else StoryWords(story[..|story| - 1]) + WordsOf(story[|story| - 1])
  }

  // ---------------------------------------------------------------------
  // The imperative code

  /** The `forEach` that ends both extractors: each piece, lower-cased, goes
      to `words.count`, in order (index.js:28, 34). */
  method CountLowered(pieces: seq<string>, words: Counter)
    requires words.Valid()
    modifies words
    ensures words.Valid()
    ensures words.Model() == TallyAll(old(words.Model()), Lowered(pieces))
  {
    ghost var counted := Lowered(pieces);
    for i := 0 to |pieces|
      invariant words.Valid()
      invariant words.Model() == TallyAll(old(words.Model()), counted[..i])
    {
      assert counted[..i + 1] == counted[..i] + [ToLower(pieces[i])];
      TallyAllSnoc(old(words.Model()), counted[..i], ToLower(pieces[i]));
      words.Count(ToLower(pieces[i]));
    }
    assert counted[..|pieces|] == counted;
  }

  /** `extractItemText`, index.js:23-29. */
  method ExtractItemText(text: string, words: Counter)
    requires words.Valid()
    modifies words
    ensures words.Valid()
    ensures words.Model() == TallyAll(old(words.Model()), ItemWords(text))
  {
    var pieces := SplitOnSpace(ReplacePunct(ReplaceTags(StripBrackets(Trim(text)))));
    CountLowered(pieces, words);
  }

  /** `extractLineText`, index.js:31-35. */
  method ExtractLineText(line: string, words: Counter)
    requires words.Valid()
    modifies words
    ensures words.Valid()
    ensures words.Model() == TallyAll(old(words.Model()), LineWords(line))
  {
    var pieces := SplitOnSpace(StripBrackets(Trim(line)));
    CountLowered(pieces, words);
  }

  /** The `default` branch of index.js:49-54: every line that does not match
      `^[A-Z]+[ ]` goes through `extractLineText`. */
  method ExtractLines(text: string, words: Counter)
    requires words.Valid()
    modifies words
    ensures words.Valid()
    ensures words.Model() == TallyAll(old(words.Model()), LinesWords(SplitLines(text)))
  {
    var lines := SplitLines(text);
    for j := 0 to |lines|
      invariant words.Valid()
      invariant words.Model() == TallyAll(old(words.Model()), LinesWords(lines[..j]))
    {
      LinesStep(lines, j);
      if !IsHeaderLine(lines[j]) {
        ExtractLineText(lines[j], words);
      }
      ghost var added := if IsHeaderLine(lines[j]) then [] else LineWords(lines[j]);
      TallyAllAppend(old(words.Model()), LinesWords(lines[..j]), added);
    }
    assert lines[..|lines|] == lines;
  }

  /** One more line adds its words at the end, unless it is a header line. */
  lemma LinesStep(lines: seq<string>, j: nat)
    requires j < |lines|
    ensures LinesWords(lines[..j + 1])
         == LinesWords(lines[..j]) + if IsHeaderLine(lines[j]) then [] else LineWords(lines[j])
  {
    assert lines[..j + 1][..j] == lines[..j];
  }

  /** `extractStoryText`, index.js:37-61: for each item, count its type (or
      `'type missing'`) in `items`, and the words of its text in `words`. */
  method ExtractStoryText(story: seq<Item>, items: Counter, words: Counter)
    requires items != words
    requires items.Valid() && words.Valid()
    modifies items, words
    ensures items.Valid() && words.Valid()
    ensures items.Model() == TallyAll(old(items.Model()), StoryKeys(story))
    ensures words.Model() == TallyAll(old(words.Model()), StoryWords(story))
  {
    for i := 0 to |story|
      invariant items.Valid() && words.Valid()
      invariant items.Model() == TallyAll(old(items.Model()), StoryKeys(story[..i]))
      invariant words.Model() == TallyAll(old(words.Model()), StoryWords(story[..i]))
    {
      StoryStep(story, i);
      TallyAllSnoc(old(items.Model()), StoryKeys(story[..i]), KeyOf(story[i]));
      TallyAllAppend(old(words.Model()), StoryWords(story[..i]), WordsOf(story[i]));
      ExtractItem(story[i], items, words);
    }
    assert story[..|story|] == story;
  }

  /** One more item adds its key and its words at the end. */
  lemma StoryStep(story: seq<Item>, i: nat)
    requires i < |story|
    ensures StoryKeys(story[..i + 1]) == StoryKeys(story[..i]) + [KeyOf(story[i])]
    ensures StoryWords(story[..i + 1]) == StoryWords(story[..i]) + WordsOf(story[i])
  {
    assert story[..i + 1][..i] == story[..i];
  }

  /** The callback `extractStoryText` runs for one item, index.js:39-59. */
  method ExtractItem(item: Item, items: Counter, words: Counter)
    requires items != words
    requires items.Valid() && words.Valid()
    modifies items, words
    ensures items.Valid() && words.Valid()
    ensures items.Model() == Tally(old(items.Model()), KeyOf(item))
    ensures words.Model() == TallyAll(old(words.Model()), WordsOf(item))
  {
    if item.kind.Some? {
      items.Count(item.kind.value);
      if item.text.Some? {
        if IsRichText(item.kind.value) {
          ExtractItemText(item.text.value, words);
        } else {
          ExtractLines(item.text.value, words);
        }
      }
    } else {
      items.Count(TypeMissing);
    }
  }

  // ---------------------------------------------------------------------
  // What ends up in the counters

  /** The number of items whose `type` is the empty string: `items.count`
      ignores them. */
  function EmptyTyped(story: seq<Item>): (n: nat)
    decreases |story|
  {
    if story == [] then 0
    else EmptyTyped(story[..|story| - 1]) + (if story[|story| - 1].kind == Some("") then 1 else 0)
  }

  lemma {:induction false} StoryKeysNonEmpty(story: seq<Item>)
    ensures NonEmptyCount(StoryKeys(story)) + EmptyTyped(story) == |story|
    decreases |story|
  {
    if story != [] {
      var init := story[..|story| - 1];
      StoryKeysNonEmpty(init);
      assert StoryKeys(story)[..|story| - 1] == StoryKeys(init);
    }
  }

  /** Processing a story adds one to the total of the `items` counts per item,
      except for items whose `type` is the empty string. */
  lemma ItemsTotal(t: Table, story: seq<Item>)
    requires WellFormed(t)
    ensures Total(TallyAll(t, StoryKeys(story))) == Total(t) + |story| - EmptyTyped(story)
  {
    TallyAllTotal(t, StoryKeys(story));
    StoryKeysNonEmpty(story);
  }

  /** After a story, the count of every item type (and of `'type missing'`) has
      grown by the number of items carrying it. */
  lemma ItemsCounted(t: Table, story: seq<Item>, kind: string)
    requires kind != ""
    ensures CountOf(TallyAll(t, StoryKeys(story)), kind)
         == CountOf(t, kind) + |set i | 0 <= i < |story| && KeyOf(story[i]) == kind|
  {
    var keys := StoryKeys(story);
    TallyAllCounts(t, keys, kind);
    OccurrencesAsIndices(keys, kind);
    KeyIndices(story, kind);
  }

  /** The items whose key is `kind` sit where `kind` sits in the key sequence. */
  lemma KeyIndices(story: seq<Item>, kind: string)
    ensures (set i | 0 <= i < |story| && KeyOf(story[i]) == kind)
         == (set i | 0 <= i < |StoryKeys(story)| && StoryKeys(story)[i] == kind)
  {
    var keys := StoryKeys(story);
    var a := set i | 0 <= i < |story| && KeyOf(story[i]) == kind;
    var b := set i | 0 <= i < |keys| && keys[i] == kind;
    forall i ensures i in a <==> i in b {
      if 0 <= i < |story| {
        assert keys[i] == KeyOf(story[i]);
      }
    }
  }

  lemma {:induction false} OccurrencesAsIndices(s: seq<string>, x: string)
    ensures multiset(s)[x] == |set i | 0 <= i < |s| && s[i] == x|
    decreases |s|
  {
    if s != [] {
      var init := s[..|s| - 1];
      OccurrencesAsIndices(init, x);
      assert s == init + [s[|s| - 1]];
      var before := set i | 0 <= i < |init| && init[i] == x;
      var now := set i | 0 <= i < |s| && s[i] == x;
      if s[|s| - 1] == x {
        assert now == before + {|s| - 1};
      } else {
        assert now == before;
      }
    }
  }

  /** An item without a `type`, or without a `text`, counts no words. */
  lemma NoTextNoWords(t: Table, item: Item)
    requires item.kind.None? || item.text.None?
    ensures TallyAll(t, WordsOf(item)) == t
  {
  }

  /** A whitespace-free, lower-case word. */
  predicate CleanWord(w: string) {
    NoSpace(w) && IsLower(w)
  }

  lemma {:induction false} LinesWordsClean(lines: seq<string>)
    ensures forall w :: w in LinesWords(lines) ==> CleanWord(w) && BracketFree(w)
    decreases |lines|
  {
    if lines != [] {
      LinesWordsClean(lines[..|lines| - 1]);
    }
  }

  lemma {:induction false} StoryWordsClean(story: seq<Item>)
    ensures forall w :: w in StoryWords(story) ==> CleanWord(w)
    decreases |story|
  {
    if story != [] {
      StoryWordsClean(story[..|story| - 1]);
      var item := story[|story| - 1];
      if item.kind.Some? && item.text.Some? && !IsRichText(item.kind.value) {
        LinesWordsClean(SplitLines(item.text.value));
      }
    }
  }

  /** The rich-text path strips punctuation from every word; the line path
      does not, but leaves no `]` and no `[` before the end of a word. */
  lemma TextWordsClean(kind: string, text: string)
    ensures IsRichText(kind) ==> forall w :: w in TextWords(kind, text) ==> CleanWord(w) && NoPunct(w)
    ensures !IsRichText(kind) ==> forall w :: w in TextWords(kind, text) ==> CleanWord(w) && BracketFree(w)
  {
    LinesWordsClean(SplitLines(text));
  }

  /** A rich text made only of whitespace hands `count` one empty piece, which
      the zero-length guard then ignores. */
  lemma BlankTextWords(kind: string, text: string)
    requires IsRichText(kind)
    requires forall i :: 0 <= i < |text| ==> IsSpace(text[i])
    ensures TextWords(kind, text) == [""]
  {
  }

  /** Every key of `words` is non-empty and clean after a story, from any
      counter whose keys already are, so across any number of pages. */
  lemma WordKeysCleanFrom(t: Table, story: seq<Item>)
    requires forall w :: w in t.counts ==> w != "" && CleanWord(w)
    ensures forall w :: w in TallyAll(t, StoryWords(story)).counts ==> w != "" && CleanWord(w)
  {
    TallyAllKeys(t, StoryWords(story));
    StoryWordsClean(story);
  }

  /** Starting from empty counters, every key of `words` after a story is a
      non-empty, whitespace-free, lower-case word of the story. */
  lemma WordKeysClean(story: seq<Item>)
    ensures forall w :: w in TallyAll(Empty(), StoryWords(story)).counts ==>
      w != "" && w in StoryWords(story) && CleanWord(w)
  {
    TallyAllKeys(Empty(), StoryWords(story));
    StoryWordsClean(story);
  }

  /** The words of two runs of lines are the words of the first run, then
      those of the second. */
  lemma {:induction false} LinesWordsAppend(a: seq<string>, b: seq<string>)
    ensures LinesWords(a + b) == LinesWords(a) + LinesWords(b)
    decreases |b|
  {
    if b == [] {
      assert a + b == a;
    } else {
      var b', last := b[..|b| - 1], b[|b| - 1];
      var tail := if IsHeaderLine(last) then [] else LineWords(last);
      assert (a + b)[..|a + b| - 1] == a + b' && (a + b)[|a + b| - 1] == last;
      assert LinesWords(a + b) == LinesWords(a + b') + tail;
      assert LinesWords(b) == LinesWords(b') + tail;
      LinesWordsAppend(a, b');
      ConcatAssoc(LinesWords(a), LinesWords(b'), tail);
    }
  }

  /** A header line contributes nothing, wherever it stands. */
  lemma HeaderLineSkipped(before: seq<string>, header: string, after: seq<string>)
    requires IsHeaderLine(header)
    ensures LinesWords(before + [header] + after) == LinesWords(before) + LinesWords(after)
  {
    LinesWordsAppend(before + [header], after);
    assert (before + [header])[..|before|] == before;
    assert LinesWords(before + [header]) == LinesWords(before);
  }

  /** A line-path item whose text is a header line, a newline and a caption
      counts the caption's words only; the header line adds nothing. */
  lemma HeaderThenCaption(kind: string, header: string, caption: string)
    requires !IsRichText(kind) && NoBreak(header) && NoBreak(caption)
    requires IsHeaderLine(header) && !IsHeaderLine(caption)
    ensures WordsOf(Item(Some(kind), Some(header + "\n" + caption))) == LineWords(caption)
  {
    var text := header + "\n" + caption;
    assert WordsOf(Item(Some(kind), Some(text))) == LinesWords(SplitLines(text));
    SplitLinesAtNewline(header, caption);
    SplitLinesOfLine(caption);
    assert SplitLines(text) == [] + [header] + [caption];
    HeaderLineSkipped([], header, [caption]);
    OneLineWords(caption);
  }

  /** A text of one line that is not a header line counts that line's words. */
  lemma OneLineWords(line: string)
    requires !IsHeaderLine(line)
    ensures LinesWords([line]) == LineWords(line)
  {
    assert [line][..0] == [];
  }

  /** The metadata line of a transcript is a header line. */
  lemma MetadataLineIsHeader(header: string)
    requires header == "HTTP METADATA LINE"
    ensures IsHeaderLine(header) && NoBreak(header)
  {
    assert header[0] == 'H' && header[1] == 'T' && header[2] == 'T' && header[3] == 'P';
    assert header[4] == ' ';
    RunEndAt(header, 0, Capital, 4);
  }

  /** A caption line is not a header line and has nothing to trim or strip. */
  lemma CaptionLineIsPlain(caption: string)
    requires caption == "Actual caption text"
    ensures !IsHeaderLine(caption) && NoBreak(caption)
    ensures !IsSpace(caption[0]) && !IsSpace(caption[|caption| - 1]) && NoLinkMarkers(caption)
  {
    assert caption[0] == 'A' && caption[1] == 'c';
    RunEndAt(caption, 0, Capital, 1);
    NoBracketsNoMarkers(caption);
  }

  /** A video item whose first line is transcript metadata counts only the
      caption's words. */
  lemma VideoExample(text: string, header: string, caption: string)
    requires header == "HTTP METADATA LINE" && caption == "Actual caption text"
    requires text == header + "\n" + caption
    ensures WordsOf(Item(Some("video"), Some(text))) == ["actual", "caption", "text"]
  {
    MetadataLineIsHeader(header);
    CaptionLineIsPlain(caption);
    HeaderThenCaption("video", header, caption);
    PlainLineWords(caption);
    CaptionPieces();
    CaptionSplit();
    CaptionLowered();
  }

  /** The caption literal as a concatenation of its words and spaces, so that
      the split lemmas apply to it without the verifier unfolding a literal. */
  lemma CaptionPieces()
    ensures "Actual caption text" == "Actual" + " " + ("caption" + " " + "text")
  {
  }

  lemma CaptionSplit()
    ensures SplitOnSpace("Actual" + " " + ("caption" + " " + "text")) == ["Actual", "caption", "text"]
  {
    SplitOfWord("text");
    SplitAtSpace("caption", " ", "text");
    SplitAtSpace("Actual", " ", "caption" + " " + "text");
  }

  lemma CaptionLowered()
    ensures Lowered(["Actual", "caption", "text"]) == ["actual", "caption", "text"]
  {
    var ws := ["Actual", "caption", "text"];
    assert ToLower(ws[0]) == "actual";
    assert ToLower(ws[1]) == "caption";
    assert ToLower(ws[2]) == "text";
  }
}
