/**
 * The four reports of index.js:92-164, without the streams that write them:
 * the three comparators, the sorted sequences they give and the text of
 * `items.txt`, `words.txt`, `length.txt` and `frequency.txt`.
 */
module Reports {
  import opened Wrappers
  import opened Text
  import opened Counting
  import opened Sorting

  // ---------------------------------------------------------------------
  // JavaScript `<` on strings

  /** `a < b` on strings: the first differing character decides, and a
      proper prefix comes first. */
  predicate StringLess(a: string, b: string)
    ensures a < b ==> StringLess(a, b)
    ensures b <= a ==> !StringLess(a, b)
    decreases |a|
  {
    if a == [] then b != []
    else if b == [] then false
    else if a[0] != b[0] then a[0] < b[0]
    else StringLess(a[1..], b[1..])
  }

  lemma {:induction false} StringLessIrreflexive(a: string)
    ensures !StringLess(a, a)
    decreases |a|
  {
    if a != [] { StringLessIrreflexive(a[1..]); }
  }

  lemma {:induction false} StringLessAsymmetric(a: string, b: string)
    ensures StringLess(a, b) ==> !StringLess(b, a)
    decreases |a|
  {
    if a != [] && b != [] && a[0] == b[0] { StringLessAsymmetric(a[1..], b[1..]); }
  }

  lemma {:induction false} StringLessConnected(a: string, b: string)
    ensures a != b ==> StringLess(a, b) || StringLess(b, a)
    decreases |a|
  {
    if a != [] && b != [] && a[0] == b[0] {
      StringLessConnected(a[1..], b[1..]);
      assert a == [a[0]] + a[1..] && b == [b[0]] + b[1..];
    }
  }

  lemma {:induction false} StringLessTransitive(a: string, b: string, c: string)
    ensures StringLess(a, b) && StringLess(b, c) ==> StringLess(a, c)
    decreases |a|
  {
    if a != [] && b != [] && c != [] && a[0] == b[0] == c[0] {
      StringLessTransitive(a[1..], b[1..], c[1..]);
    }
  }

  // ---------------------------------------------------------------------
  // The comparators

  /** index.js:97-110 and 147-160: higher count first, equal counts by key. */
  function CompareByFrequency(a: Entry, b: Entry): (r: int)
    ensures -1 <= r <= 1
    ensures r == 0 <==> a == b
    ensures r < 0 ==> a.1 >= b.1
  {
    StringLessIrreflexive(a.0);
    StringLessConnected(a.0, b.0);
    if a.1 < b.1 then 1
    else if a.1 > b.1 then -1
    else if StringLess(a.0, b.0) then -1
    else if StringLess(b.0, a.0) then 1
    else 0
  }

  /** The comparison `sort()` makes without a comparator, on strings. */
  function CompareStrings(a: string, b: string): (r: int)
    ensures -1 <= r <= 1
    ensures r == 0 <==> a == b
  {
    StringLessIrreflexive(a);
    StringLessConnected(a, b);
    if StringLess(a, b) then -1 else if StringLess(b, a) then 1 else 0
  }

  /** `a.at(0) < b.at(0)`: `at(0)` of the empty string is `undefined`, which is
      not less than anything and nothing is less than it. */
  predicate FirstLess(a: string, b: string) {
    a != [] && b != [] && a[0] < b[0]
  }

  /** index.js:126-139: longer first, equal lengths by first character only. */
  function CompareByLength(a: string, b: string): (r: int)
    ensures -1 <= r <= 1
    ensures r == 0 <==> |a| == |b| && (a == [] || a[0] == b[0])
    ensures r < 0 ==> |a| >= |b|
  {
    if |a| < |b| then 1
    else if |a| > |b| then -1
    else if FirstLess(a, b) then -1
    else if FirstLess(b, a) then 1
    else 0
  }

  lemma FrequencyConsistent()
    ensures Consistent(CompareByFrequency) && Antisymmetric(CompareByFrequency)
  {
    forall a: Entry, b: Entry ensures CompareByFrequency(a, b) <= 0 || CompareByFrequency(b, a) <= 0 {
      StringLessAsymmetric(a.0, b.0);
    }
    forall a: Entry, b: Entry, c: Entry
      ensures CompareByFrequency(a, b) <= 0 && CompareByFrequency(b, c) <= 0 ==> CompareByFrequency(a, c) <= 0
    {
      StringLessAsymmetric(a.0, b.0);
      StringLessAsymmetric(b.0, c.0);
      StringLessAsymmetric(a.0, c.0);
      StringLessConnected(a.0, b.0);
      StringLessConnected(b.0, c.0);
      StringLessTransitive(a.0, b.0, c.0);
      StringLessTransitive(c.0, b.0, a.0);
    }
    forall a: Entry, b: Entry ensures CompareByFrequency(a, b) <= 0 && CompareByFrequency(b, a) <= 0 ==> a == b {
      StringLessConnected(a.0, b.0);
      StringLessAsymmetric(a.0, b.0);
      assert a == (a.0, a.1) && b == (b.0, b.1);
    }
  }

  lemma StringsConsistent()
    ensures Consistent(CompareStrings) && Antisymmetric(CompareStrings)
  {
    forall a: string, b: string ensures CompareStrings(a, b) <= 0 || CompareStrings(b, a) <= 0 {
      StringLessAsymmetric(a, b);
    }
    forall a: string, b: string, c: string
      ensures CompareStrings(a, b) <= 0 && CompareStrings(b, c) <= 0 ==> CompareStrings(a, c) <= 0
    {
      StringLessAsymmetric(a, b);
      StringLessAsymmetric(b, c);
      StringLessAsymmetric(a, c);
      StringLessConnected(a, b);
      StringLessConnected(b, c);
      StringLessTransitive(a, b, c);
    }
    forall a: string, b: string ensures CompareStrings(a, b) <= 0 && CompareStrings(b, a) <= 0 ==> a == b {
      StringLessConnected(a, b);
      StringLessAsymmetric(a, b);
    }
  }

  lemma LengthConsistent()
    ensures Consistent(CompareByLength)
  {
  }

  // ---------------------------------------------------------------------
  // The sorted sequences

  /** `freqItems` and `freqWords`: the entries by descending count, equal
      counts by ascending key. */
  function RankByFrequency(entries: seq<Entry>): (r: seq<Entry>)
    ensures multiset(r) == multiset(entries)
    ensures forall i, j :: 0 <= i < j < |r| ==>
      r[i].1 > r[j].1 || (r[i].1 == r[j].1 && !StringLess(r[j].0, r[i].0))
  {
    FrequencyConsistent();
    SortBySorted(entries, CompareByFrequency);
    FrequencyOrderMeaning(SortBy(entries, CompareByFrequency));
    SortBy(entries, CompareByFrequency)
  }

  /** `sortedWords`: the keys in ascending order. */
  function Alphabetical(keys: seq<string>): (r: seq<string>)
    ensures multiset(r) == multiset(keys)
    ensures forall i, j :: 0 <= i < j < |r| ==> !StringLess(r[j], r[i])
  {
    StringsConsistent();
    SortBySorted(keys, CompareStrings);
    StringOrderMeaning(SortBy(keys, CompareStrings));
    SortBy(keys, CompareStrings)
  }

  lemma FrequencyOrderMeaning(r: seq<Entry>)
    requires SortedBy(r, CompareByFrequency)
    ensures forall i, j :: 0 <= i < j < |r| ==>
      r[i].1 > r[j].1 || (r[i].1 == r[j].1 && !StringLess(r[j].0, r[i].0))
  {
    forall i, j | 0 <= i < j < |r|
      ensures r[i].1 > r[j].1 || (r[i].1 == r[j].1 && !StringLess(r[j].0, r[i].0))
    {
      assert CompareByFrequency(r[i], r[j]) <= 0;
      StringLessAsymmetric(r[i].0, r[j].0);
    }
  }

  lemma StringOrderMeaning(r: seq<string>)
    requires SortedBy(r, CompareStrings)
    ensures forall i, j :: 0 <= i < j < |r| ==> !StringLess(r[j], r[i])
  {
    forall i, j | 0 <= i < j < |r| ensures !StringLess(r[j], r[i]) {
      assert CompareStrings(r[i], r[j]) <= 0;
      StringLessAsymmetric(r[i], r[j]);
    }
  }

  /** `lenWords`: the keys by descending length, equal lengths by ascending
      first character; the order among keys of equal length and first
      character is not fixed here. */
  function RankByLength(keys: seq<string>): (r: seq<string>)
    ensures multiset(r) == multiset(keys)
    ensures forall i, j :: 0 <= i < j < |r| ==>
      |r[i]| > |r[j]| || (|r[i]| == |r[j]| && !FirstLess(r[j], r[i]))
  {
    LengthConsistent();
    SortBySorted(keys, CompareByLength);
    SortBy(keys, CompareByLength)
  }

  /** Words of equal length and equal first character keep the order they
      have in `keys`, `sort` being stable. */
  lemma RankByLengthStable(keys: seq<string>, w: string)
    ensures Ties(RankByLength(keys), w, CompareByLength) == Ties(keys, w, CompareByLength)
  {
    LengthConsistent();
    SortByStable(keys, w, CompareByLength);
  }

  /** Two words of equal length and equal first character are not put in
      alphabetical order: `"ab"` stays ahead of `"aa"`. */
  lemma LengthTieExample(keys: seq<string>)
    requires keys == ["ab", "aa"]
    ensures RankByLength(keys) == ["ab", "aa"]
  {
    assert keys[1..] == ["aa"] && keys[1..][1..] == [];
    assert SortBy(keys[1..], CompareByLength) == ["aa"];
    assert CompareByLength("ab", "aa") == 0;
  }

  /** The frequency ranking depends only on the entries, not on the order the
      map produced them in. */
  lemma RankByFrequencyUnique(a: seq<Entry>, b: seq<Entry>)
    requires multiset(a) == multiset(b)
    ensures RankByFrequency(a) == RankByFrequency(b)
  {
    FrequencyConsistent();
    SortBySorted(a, CompareByFrequency);
    SortBySorted(b, CompareByFrequency);
    SortedUnique(RankByFrequency(a), RankByFrequency(b), CompareByFrequency);
  }

  lemma AlphabeticalUnique(a: seq<string>, b: seq<string>)
    requires multiset(a) == multiset(b)
    ensures Alphabetical(a) == Alphabetical(b)
  {
    StringsConsistent();
    SortBySorted(a, CompareStrings);
    SortBySorted(b, CompareStrings);
    SortedUnique(Alphabetical(a), Alphabetical(b), CompareStrings);
  }

  /** For the counts {"b": 2, "a": 2, "c": 1}, the frequency report lists a,
      b, c. */
  lemma FrequencyExample()
    ensures RankByFrequency([("b", 2), ("a", 2), ("c", 1)]) == [("a", 2), ("b", 2), ("c", 1)]
  {
    var x, y, z: Entry := ("a", 2), ("b", 2), ("c", 1);
    assert StringLess(x.0, y.0);
    FrequencyConsistent();
    SortedThree(x, y, z, CompareByFrequency);
    SwapFront(y, x, z);
    RankByFrequencyUnique([y, x, z], [x, y, z]);
    RankOfRanked([x, y, z]);
  }

  /** Entries already in frequency order are left as they are. */
  lemma RankOfRanked(es: seq<Entry>)
    requires SortedBy(es, CompareByFrequency)
    ensures RankByFrequency(es) == es
  {
    FrequencyConsistent();
    SortBySorted(es, CompareByFrequency);
    SortedUnique(RankByFrequency(es), es, CompareByFrequency);
  }

  // ---------------------------------------------------------------------
  // Report lines

  predicate IsDigit(c: char) {
    '0' <= c <= '9'
  }

  /** `String(n)` for a non-negative integer: its decimal digits. */
  function NatToString(n: nat): (r: string)
    ensures r != [] && forall i :: 0 <= i < |r| ==> IsDigit(r[i])
  {
    if n < 10 then [('0' as int + n) as char]
    else NatToString(n / 10) + [('0' as int + n % 10) as char]
  }

  function DigitsValue(s: string): nat
    requires forall i :: 0 <= i < |s| ==> IsDigit(s[i])
  {
    if s == [] then 0
    else
      assert IsDigit(s[|s| - 1]);
      DigitsValue(s[..|s| - 1]) * 10 + (s[|s| - 1] as int - '0' as int)
  }

  /** Reads a count back from its decimal digits. */
  function ParseNat(s: string): Option<nat> {
    if s != [] && forall i :: 0 <= i < |s| ==> IsDigit(s[i]) then Some(DigitsValue(s)) else None
  }

  lemma {:induction false} NatToStringRoundTrip(n: nat)
    ensures ParseNat(NatToString(n)) == Some(n)
  {
    var s := NatToString(n);
    if n >= 10 {
      NatToStringRoundTrip(n / 10);
      assert s[..|s| - 1] == NatToString(n / 10);
      assert DigitsValue(s) == DigitsValue(NatToString(n / 10)) * 10 + n % 10;
    } else {
      assert s[..0] == [];
      assert DigitsValue(s) == n;
    }
  }

  /** `count + '\t' + key`, index.js:112 and 162. */
  function CountLine(e: Entry): (r: string)
    ensures |r| >= |e.0| + 2 && r[|r| - |e.0| - 1] == '\t' && r[|r| - |e.0|..] == e.0
    ensures forall i :: 0 <= i < |r| - |e.0| - 1 ==> IsDigit(r[i])
  {
    NatToString(e.1) + "\t" + e.0
  }

  /** `len.length + '\t' + len`, index.js:141. */
  function LengthLine(w: string): (r: string)
    ensures |r| >= |w| + 2 && r[|r| - |w| - 1] == '\t' && r[|r| - |w|..] == w
    ensures forall i :: 0 <= i < |r| - |w| - 1 ==> IsDigit(r[i])
  {
    NatToString(|w|) + "\t" + w
  }

  /** Reads a report line back: the count before the first tab, the key after it. */
  function ParseCountLine(line: string): Option<Entry> {
    match Find(line, '\t') {
      case None => None
      case Some(i) =>
        match ParseNat(line[..i]) {
          case None => None
          case Some(n) => Some((line[i + 1..], n))
        }
    }
  }

  /** A count line gives back its entry, whatever characters the key holds. */
  lemma CountLineRoundTrip(e: Entry)
    ensures ParseCountLine(CountLine(e)) == Some(e)
  {
    var digits := NatToString(e.1);
    var line := CountLine(e);
    FindAfterDigits(digits, e.0);
    assert line[..|digits|] == digits && line[|digits| + 1..] == e.0;
    NatToStringRoundTrip(e.1);
  }

  lemma LengthLineRoundTrip(w: string)
    ensures ParseCountLine(LengthLine(w)) == Some((w, |w|))
  {
    CountLineRoundTrip((w, |w|));
  }

  lemma FindAfterDigits(digits: string, key: string)
    requires forall i :: 0 <= i < |digits| ==> IsDigit(digits[i])
    ensures Find(digits + "\t" + key, '\t') == Some(|digits|)
  {
    var line := digits + "\t" + key;
    forall i | 0 <= i < |digits| ensures line[i] != '\t' {
      assert line[i] == digits[i];
    }
    assert line[|digits|] == '\t';
  }

  /** The text a stream receives: each line followed by `\n`. */
  function FileText(lines: seq<string>): (r: string)
    ensures r == [] <==> lines == []
    ensures lines != [] ==> r[|r| - 1] == '\n'
  {
    if lines == [] then [] else lines[0] + "\n" + FileText(lines[1..])
  }

  /** Splitting a report at its line breaks gives back its lines and the empty
      string after the last `\n`, provided no line holds a break itself. */
  lemma {:induction false} FileTextLines(lines: seq<string>)
    requires forall i :: 0 <= i < |lines| ==> NoBreak(lines[i])
    ensures SplitLines(FileText(lines)) == lines + [""]
  {
    if lines != [] {
      SplitLinesAtNewline(lines[0], FileText(lines[1..]));
      FileTextLines(lines[1..]);
      assert lines == [lines[0]] + lines[1..];
      ConcatAssoc([lines[0]], lines[1..], [""]);
    }
  }

  function CountLines(entries: seq<Entry>): (r: seq<string>)
    ensures |r| == |entries| && forall i :: 0 <= i < |r| ==> r[i] == CountLine(entries[i])
  {
    seq(|entries|, i requires 0 <= i < |entries| => CountLine(entries[i]))
  }

  function LengthLines(keys: seq<string>): (r: seq<string>)
    ensures |r| == |keys| && forall i :: 0 <= i < |r| ==> r[i] == LengthLine(keys[i])
  {
    seq(|keys|, i requires 0 <= i < |keys| => LengthLine(keys[i]))
  }

  // ---------------------------------------------------------------------
  // The reports of a counter

  /** `items.txt` for the item counter and `frequency.txt` for the word counter. */
  function FrequencyReport(t: Table): (r: string)
    ensures r == [] <==> t.order == []
  {
    FileText(CountLines(RankByFrequency(EntriesOf(t))))
  }

  /** `words.txt`. */
  function WordsReport(t: Table): (r: string)
    ensures r == [] <==> t.order == []
  {
    FileText(Alphabetical(t.order))
  }

  /** `length.txt`. */
  function LengthReport(t: Table): (r: string)
    ensures r == [] <==> t.order == []
  {
    FileText(LengthLines(RankByLength(t.order)))
  }

  /** A report line holds a line break only if its key does. */
  lemma CountLineNoBreak(e: Entry)
    requires NoBreak(e.0)
    ensures NoBreak(CountLine(e))
  {
  }

  /** `frequency.txt` (or `items.txt`) splits at its line breaks into the
      ranked count lines and the empty piece after the last `\n`, when no key
      holds a line break. */
  lemma FrequencyReportLines(t: Table)
    requires forall i :: 0 <= i < |t.order| ==> NoBreak(t.order[i])
    ensures SplitLines(FrequencyReport(t)) == CountLines(RankByFrequency(EntriesOf(t))) + [""]
  {
    var entries := EntriesOf(t);
    var r := RankByFrequency(entries);
    var lines := CountLines(r);
    forall i | 0 <= i < |lines| ensures NoBreak(lines[i]) {
      assert r[i] in multiset(entries);
      var j :| 0 <= j < |entries| && entries[j] == r[i];
      assert r[i].0 == t.order[j];
      CountLineNoBreak(r[i]);
    }
    FileTextLines(lines);
  }

  /** `words.txt` splits back into the alphabetical keys and a final empty
      piece, when no key holds a line break. */
  lemma WordsReportLines(t: Table)
    requires forall i :: 0 <= i < |t.order| ==> NoBreak(t.order[i])
    ensures SplitLines(WordsReport(t)) == Alphabetical(t.order) + [""]
  {
    var lines := Alphabetical(t.order);
    forall i | 0 <= i < |lines| ensures NoBreak(lines[i]) {
      assert lines[i] in multiset(t.order);
      var j :| 0 <= j < |t.order| && t.order[j] == lines[i];
    }
    FileTextLines(lines);
  }

  /** `length.txt` splits back into the length lines of the ranked keys and a
      final empty piece, when no key holds a line break. */
  lemma LengthReportLines(t: Table)
    requires forall i :: 0 <= i < |t.order| ==> NoBreak(t.order[i])
    ensures SplitLines(LengthReport(t)) == LengthLines(RankByLength(t.order)) + [""]
  {
    var r := RankByLength(t.order);
    var lines := LengthLines(r);
    forall i | 0 <= i < |lines| ensures NoBreak(lines[i]) {
      assert r[i] in multiset(t.order);
      var j :| 0 <= j < |t.order| && t.order[j] == r[i];
      assert LengthLine(r[i]) == CountLine((r[i], |r[i]|));
      CountLineNoBreak((r[i], |r[i]|));
    }
    FileTextLines(lines);
  }

  /** The frequency ranking of a counter lists every key once with its count,
      by descending count and, for equal counts, strictly ascending key. */
  lemma RankedTable(t: Table)
    requires WellFormed(t)
    ensures var r := RankByFrequency(EntriesOf(t));
      && |r| == |t.order|
      && (forall e: Entry :: e in r <==> e.0 in t.counts && t.counts[e.0] == e.1)
      && (forall i, j :: 0 <= i < j < |r| ==>
            r[i].1 > r[j].1 || (r[i].1 == r[j].1 && StringLess(r[i].0, r[j].0)))
  {
    var r := RankByFrequency(EntriesOf(t));
    EntriesComplete(t);
    assert |r| == |multiset(r)| == |multiset(EntriesOf(t))|;
    forall e: Entry ensures e in r <==> e in EntriesOf(t) {
      assert e in r <==> e in multiset(r);
    }
    forall i, j | 0 <= i < j < |r| && r[i].1 == r[j].1
      ensures StringLess(r[i].0, r[j].0)
    {
      StringLessConnected(r[i].0, r[j].0);
      if r[i].0 == r[j].0 {
        assert r[i] == r[j];
        RepeatedMultiplicity(r, i, j);
        EntryMultiplicity(EntriesOf(t), r[i]);
      }
    }
  }

  /** An element at two positions occurs at least twice. */
  lemma RepeatedMultiplicity<T>(s: seq<T>, i: nat, j: nat)
    requires i < j < |s| && s[i] == s[j]
    ensures multiset(s)[s[i]] >= 2
  {
    assert s == s[..j] + s[j..];
    assert s[i] in s[..j];
    assert s[j] == s[j..][0];
  }

  /** Entries with distinct keys hold each entry once. */
  lemma {:induction false} EntryMultiplicity(es: seq<Entry>, e: Entry)
    requires forall i, j :: 0 <= i < j < |es| ==> es[i].0 != es[j].0
    ensures multiset(es)[e] <= 1
    decreases |es|
  {
    if es != [] {
      var init := es[..|es| - 1];
      EntryMultiplicity(init, e);
      assert es == init + [es[|es| - 1]];
      if es[|es| - 1] == e {
        assert e !in init by {
          forall i | 0 <= i < |init| ensures init[i] != e { assert init[i] == es[i]; }
        }
      }
    }
  }

  /** The report step of the final `.then`, index.js:92-164, with the text of
      each file returned instead of written. */
  method WriteReports(items: Counter, words: Counter)
    returns (itemsText: string, wordsText: string, lengthText: string, frequencyText: string)
    ensures itemsText == FrequencyReport(items.Model())
    ensures wordsText == WordsReport(words.Model())
    ensures lengthText == LengthReport(words.Model())
    ensures frequencyText == FrequencyReport(words.Model())
  {
    var itemEntries := items.Entries();
    itemsText := FileText(CountLines(RankByFrequency(itemEntries)));
    var wordKeys := words.Keys();
    wordsText := FileText(Alphabetical(wordKeys));
    lengthText := FileText(LengthLines(RankByLength(wordKeys)));
    var wordEntries := words.Entries();
    frequencyText := FileText(CountLines(RankByFrequency(wordEntries)));
  }
}
