/**
 * The string passes of `extractItemText` and `extractLineText`
 * (index.js:23-35) and of the line handling in `extractStoryText`
 * (index.js:50-51), written as left-to-right scanners over `seq<char>`.
 * Each scanner walks an index `i` through the whole string, as the
 * regular-expression engine does: at each position it either matches the
 * pattern there (and emits the replacement) or keeps one character and
 * moves on. The public functions start the scan at index 0.
 */
module Text {
  import opened Wrappers
  import opened Chars

  // ---------------------------------------------------------------------
  // Runs of characters

  predicate NoSpace(w: string) {
    forall i :: 0 <= i < |w| ==> !IsSpace(w[i])
  }

  predicate IsBreak(c: char) {
    c == '\r' || c == '\n'
  }

  predicate NoBreak(w: string) {
    forall i :: 0 <= i < |w| ==> !IsBreak(w[i])
  }

  predicate IsQuote(c: char) {
    c == '"' || c == '\''
  }

  /** The character classes whose maximal runs the patterns skip over:
      `\s`, `[\S]`, anything but a line break, `[A-Z]` and `['"]`. */
  datatype Class = Space | NonSpace | NonBreak | Capital | Quote

  predicate InClass(c: char, k: Class) {
    match k
    case Space => IsSpace(c)
    case NonSpace => !IsSpace(c)
    case NonBreak => !IsBreak(c)
    case Capital => IsAsciiUpper(c)
    case Quote => IsQuote(c)
  }

  /** The end of the maximal run of class `k` in `s` that starts at `i`. */
  function RunEnd(s: string, i: nat, k: Class): (n: nat)
    requires i <= |s|
    ensures i <= n <= |s|
    ensures n == |s| || !InClass(s[n], k)
    decreases |s| - i
  {
    if i == |s| || !InClass(s[i], k) then i else RunEnd(s, i + 1, k)
  }

  /** Every character of the run is of class `k`. */
  lemma {:induction false} RunEndSpan(s: string, i: nat, k: Class)
    requires i <= |s|
    ensures forall j :: i <= j < RunEnd(s, i, k) ==> InClass(s[j], k)
    decreases |s| - i
  {
    if i < |s| && InClass(s[i], k) {
      RunEndSpan(s, i + 1, k);
    }
  }

  /** A run is found by its ends: a stretch of class `k` that the end of the
      text or a character of another class closes is the maximal run. */
  lemma RunEndAt(s: string, i: nat, k: Class, n: nat)
    requires i <= n <= |s|
    requires forall j :: i <= j < n ==> InClass(s[j], k)
    requires n == |s| || !InClass(s[n], k)
    ensures RunEnd(s, i, k) == n
  {
    RunEndSpan(s, i, k);
  }

  /** `t` holds `s` from index `d` on. */
  predicate Agrees(t: string, d: nat, s: string) {
    |t| == d + |s| && forall m :: 0 <= m < |s| ==> t[d + m] == s[m]
  }

  lemma AppendAgrees(p: string, s: string)
    ensures Agrees(p + s, |p|, s)
  {
  }

  /** A run depends only on the text from where it starts. */
  lemma RunEndAgree(t: string, d: nat, s: string, i: nat, k: Class)
    requires Agrees(t, d, s) && i <= |s|
    ensures RunEnd(t, d + i, k) == d + RunEnd(s, i, k)
  {
    var n := RunEnd(s, i, k);
    RunEndSpan(s, i, k);
    forall m | d + i <= m < d + n ensures InClass(t[m], k) {
      assert t[m] == s[m - d];
    }
    if n < |s| {
      assert t[d + n] == s[n];
    }
    RunEndAt(t, d + i, k, d + n);
  }

  /** The characters of `s` from `i` up to `j`, one by one: the same string
      as the slice `s[i..j]` (`PieceSlice`). */
  function Piece(s: string, i: nat, j: nat): (r: string)
    requires i <= j <= |s|
    ensures |r| == j - i
    decreases j - i
  {
    if i == j then [] else [s[i]] + Piece(s, i + 1, j)
  }

  lemma {:induction false} PieceSlice(s: string, i: nat, j: nat)
    requires i <= j <= |s|
    ensures Piece(s, i, j) == s[i..j]
    decreases j - i
  {
    if i < j {
      PieceSlice(s, i + 1, j);
      assert s[i..j] == [s[i]] + s[i + 1..j];
    }
  }

  lemma {:induction false} PieceAgree(t: string, d: nat, s: string, i: nat, j: nat)
    requires Agrees(t, d, s) && i <= j <= |s|
    ensures Piece(t, d + i, d + j) == Piece(s, i, j)
    decreases j - i
  {
    if i < j {
      assert t[d + i] == s[i];
      PieceAgree(t, d, s, i + 1, j);
    }
  }

  lemma SliceAgree(t: string, d: nat, s: string, i: nat, j: nat)
    requires Agrees(t, d, s) && i <= j <= |s|
    ensures t[d + i..d + j] == s[i..j]
    ensures j == |s| ==> t[d + i..] == s[i..]
  {
    forall m | 0 <= m < j - i ensures t[d + i..d + j][m] == s[i..j][m] {
      assert s[i + m] == t[d + i + m];
    }
  }

  // ---------------------------------------------------------------------
  // String.prototype.trim

  /** The start of the maximal run of whitespace in `s[lo..hi]` that ends at `hi`. */
  function TrailStart(s: string, lo: nat, hi: nat): (n: nat)
    requires lo <= hi <= |s|
    ensures lo <= n <= hi
    ensures forall j :: n <= j < hi ==> IsSpace(s[j])
    ensures n == lo || !IsSpace(s[n - 1])
    decreases hi - lo
  {
    if hi == lo || !IsSpace(s[hi - 1]) then hi else TrailStart(s, lo, hi - 1)
  }

  /** `trim()`: the slice of `s` that starts at its first and ends at its last
      non-whitespace character; everything cut off is whitespace. */
  function Trim(s: string): (r: string)
    ensures r == [] || (!IsSpace(r[0]) && !IsSpace(r[|r| - 1]))
    ensures RunEnd(s, 0, Space) + |r| <= |s|
    ensures s == s[..RunEnd(s, 0, Space)] + r + s[RunEnd(s, 0, Space) + |r|..]
    ensures forall i :: RunEnd(s, 0, Space) + |r| <= i < |s| ==> IsSpace(s[i])
  {
    var a := RunEnd(s, 0, Space);
    var b := TrailStart(s, a, |s|);
    TrimEnds(s, a, b);
    SliceThree(s, a, b);
    s[a..b]
  }

  lemma SliceThree<T>(s: seq<T>, i: nat, j: nat)
    requires i <= j <= |s|
    ensures s == s[..i] + s[i..j] + s[j..]
  {
  }

  /** What `trim()` keeps starts and ends with non-whitespace. */
  lemma TrimEnds(s: string, a: nat, b: nat)
    requires a == RunEnd(s, 0, Space) && b == TrailStart(s, a, |s|)
    ensures var r := s[a..b]; r == [] || (!IsSpace(r[0]) && !IsSpace(r[|r| - 1]))
  {
    if a < b {
      assert s[a..b][0] == s[a];
      assert s[a..b][b - a - 1] == s[b - 1];
    }
  }

  /** A string that ends in non-whitespace at both ends is its own trim. */
  lemma TrimOfTrimmed(s: string)
    requires s != [] && !IsSpace(s[0]) && !IsSpace(s[|s| - 1])
    ensures Trim(s) == s
  {
    RunEndAt(s, 0, Space, 0);
    assert TrailStart(s, 0, |s|) == |s|;
    assert s[0..|s|] == s;
  }

  // ---------------------------------------------------------------------
  // replace(/\[{2}|\[(?:[\S]+)|\]{1,2}/g, '')

  /** No `]` at all, and every `[` is the last character or followed by
      whitespace: nothing the bracket pattern can match. */
  predicate NoLinkMarkers(s: string) {
    forall i :: 0 <= i < |s| ==> MarkerOk(s, i)
  }

  /** Position `i` holds neither `]` nor a `[` the pattern would take. */
  predicate MarkerOk(s: string, i: nat)
    requires i < |s|
  {
    s[i] != ']' && (s[i] == '[' ==> i + 1 == |s| || IsSpace(s[i + 1]))
  }

  /** A text without any bracket character has no link markers. */
  lemma NoBracketsNoMarkers(s: string)
    requires forall i :: 0 <= i < |s| ==> s[i] != '[' && s[i] != ']'
    ensures NoLinkMarkers(s)
  {
    forall i | 0 <= i < |s| ensures MarkerOk(s, i) { }
  }

  lemma MarkersCons(c: char, t: string)
    requires NoLinkMarkers(t) && c != ']' && (c == '[' ==> t == [] || IsSpace(t[0]))
    ensures NoLinkMarkers([c] + t)
  {
    var r := [c] + t;
    forall i | 0 <= i < |r| ensures MarkerOk(r, i) {
      if i > 0 {
        assert MarkerOk(t, i - 1);
        assert r[i] == t[i - 1];
        if i + 1 < |r| { assert r[i + 1] == t[i]; }
      }
    }
  }

  /** The bracket pass from index `i`: removes every `[[`, `]`, `]]` and every
      `[` directly followed by a non-whitespace character together with the
      whole non-whitespace run after it. */
  function StripFrom(s: string, i: nat): string
    requires i <= |s|
    decreases |s| - i
  {
    if i == |s| then []
    else if i + 1 < |s| && s[i] == '[' && s[i + 1] == '[' then StripFrom(s, i + 2)
    else if i + 1 < |s| && s[i] == '[' && !IsSpace(s[i + 1]) then StripFrom(s, RunEnd(s, i + 1, NonSpace))
    else if s[i] == ']' then
      if i + 1 < |s| && s[i + 1] == ']' then StripFrom(s, i + 2) else StripFrom(s, i + 1)
    else [s[i]] + StripFrom(s, i + 1)
  }

  lemma {:induction false} StripFromShorter(s: string, i: nat)
    requires i <= |s|
    ensures |StripFrom(s, i)| <= |s| - i
    decreases |s| - i
  {
    if i < |s| {
      if i + 1 < |s| && s[i] == '[' && s[i + 1] == '[' {
        StripFromShorter(s, i + 2);
      } else if i + 1 < |s| && s[i] == '[' && !IsSpace(s[i + 1]) {
        StripFromShorter(s, RunEnd(s, i + 1, NonSpace));
      } else if s[i] == ']' && i + 1 < |s| && s[i + 1] == ']' {
        StripFromShorter(s, i + 2);
      } else {
        StripFromShorter(s, i + 1);
      }
    }
  }

  /** The bracket pass; it only ever removes characters. */
  function StripBrackets(s: string): (r: string)
    ensures |r| <= |s|
  {
    StripFromShorter(s, 0);
    StripFrom(s, 0)
  }

  lemma {:induction false} StripFromClean(s: string, i: nat)
    requires i <= |s|
    ensures NoLinkMarkers(StripFrom(s, i))
    ensures i < |s| && IsSpace(s[i]) ==> StripFrom(s, i) != [] && StripFrom(s, i)[0] == s[i]
    decreases |s| - i
  {
    if i == |s| {
    } else if i + 1 < |s| && s[i] == '[' && s[i + 1] == '[' {
      StripFromClean(s, i + 2);
    } else if i + 1 < |s| && s[i] == '[' && !IsSpace(s[i + 1]) {
      StripFromClean(s, RunEnd(s, i + 1, NonSpace));
    } else if s[i] == ']' {
      if i + 1 < |s| && s[i + 1] == ']' {
        StripFromClean(s, i + 2);
      } else {
        StripFromClean(s, i + 1);
      }
    } else {
      StripFromClean(s, i + 1);
      MarkersCons(s[i], StripFrom(s, i + 1));
    }
  }

  /** Nothing the bracket pattern matches survives it, and a leading
      whitespace character is kept. */
  lemma StripBracketsClean(s: string)
    ensures NoLinkMarkers(StripBrackets(s))
    ensures |s| > 0 && IsSpace(s[0]) ==> |StripBrackets(s)| > 0 && StripBrackets(s)[0] == s[0]
  {
    StripFromClean(s, 0);
  }

  /** The whitespace of `s`, in order. */
  function Spaces(s: string): string {
    if s == [] then [] else (if IsSpace(s[0]) then [s[0]] else []) + Spaces(s[1..])
  }

  lemma SpacesCons(c: char, t: string)
    ensures Spaces([c] + t) == (if IsSpace(c) then [c] else []) + Spaces(t)
  {
    assert ([c] + t)[1..] == t;
  }

  lemma SpacesAt(s: string, i: nat)
    requires i < |s|
    ensures Spaces(s[i..]) == (if IsSpace(s[i]) then [s[i]] else []) + Spaces(s[i + 1..])
  {
    assert s[i..][0] == s[i];
    assert s[i..][1..] == s[i + 1..];
  }

  lemma {:induction false} SpacesSkipWord(s: string, i: nat, e: nat)
    requires i <= e <= |s|
    requires forall j :: i <= j < e ==> !IsSpace(s[j])
    ensures Spaces(s[i..]) == Spaces(s[e..])
    decreases e - i
  {
    if i < e {
      SpacesAt(s, i);
      SpacesSkipWord(s, i + 1, e);
    }
  }

  /** A removed stretch `s[i..e]` holds no whitespace, so the whitespace
      of the rest is all there is. */
  lemma {:induction false} SpacesSkipped(s: string, i: nat, e: nat)
    requires i < e <= |s| && forall j :: i <= j < e ==> !IsSpace(s[j])
    requires StripFrom(s, i) == StripFrom(s, e)
    ensures Spaces(StripFrom(s, i)) == Spaces(s[i..])
    decreases |s| - i, 0
  {
    StripFromKeepsSpaces(s, e);
    SpacesSkipWord(s, i, e);
  }

  lemma {:induction false} SpacesKept(s: string, i: nat)
    requires i < |s| && StripFrom(s, i) == [s[i]] + StripFrom(s, i + 1)
    ensures Spaces(StripFrom(s, i)) == Spaces(s[i..])
    decreases |s| - i, 0
  {
    StripFromKeepsSpaces(s, i + 1);
    SpacesCons(s[i], StripFrom(s, i + 1));
    SpacesAt(s, i);
  }

  lemma {:induction false} StripFromKeepsSpaces(s: string, i: nat)
    requires i <= |s|
    ensures Spaces(StripFrom(s, i)) == Spaces(s[i..])
    decreases |s| - i, 1
  {
    if i == |s| {
      assert s[i..] == [];
    } else if i + 1 < |s| && s[i] == '[' && s[i + 1] == '[' {
      SpacesSkipped(s, i, i + 2);
    } else if i + 1 < |s| && s[i] == '[' && !IsSpace(s[i + 1]) {
      RunEndSpan(s, i + 1, NonSpace);
      SpacesSkipped(s, i, RunEnd(s, i + 1, NonSpace));
    } else if s[i] == ']' {
      SpacesSkipped(s, i, if i + 1 < |s| && s[i + 1] == ']' then i + 2 else i + 1);
    } else {
      SpacesKept(s, i);
    }
  }

  /** The pattern removes only non-whitespace: the whitespace of the text
      is kept, in order. */
  lemma StripBracketsKeepsSpaces(s: string)
    ensures Spaces(StripBrackets(s)) == Spaces(s)
  {
    StripFromKeepsSpaces(s, 0);
    assert s[0..] == s;
  }

  lemma {:induction false} StripFromFixpoint(s: string, i: nat)
    requires i <= |s| && NoLinkMarkers(s)
    ensures StripFrom(s, i) == s[i..]
    decreases |s| - i
  {
    if i < |s| {
      assert MarkerOk(s, i);
      StripFromFixpoint(s, i + 1);
      assert s[i..] == [s[i]] + s[i + 1..];
    } else {
      assert s[i..] == [];
    }
  }

  /** A string without link markers passes the bracket pattern unchanged. */
  lemma StripBracketsFixpoint(s: string)
    requires NoLinkMarkers(s)
    ensures StripBrackets(s) == s
  {
    StripFromFixpoint(s, 0);
    assert s[0..] == s;
  }

  lemma StripBracketsIdempotent(s: string)
    ensures StripBrackets(StripBrackets(s)) == StripBrackets(s)
  {
    StripBracketsClean(s);
    StripBracketsFixpoint(StripBrackets(s));
  }

  /** The bracket pass depends only on the text from where it starts. */
  lemma {:induction false} StripFromAgree(t: string, d: nat, s: string, i: nat)
    requires Agrees(t, d, s) && i <= |s|
    ensures StripFrom(t, d + i) == StripFrom(s, i)
    decreases |s| - i
  {
    if i < |s| {
      assert t[d + i] == s[i];
      if i + 1 < |s| {
        assert t[d + i + 1] == s[i + 1];
      }
      if i + 1 < |s| && s[i] == '[' && s[i + 1] == '[' {
        assert StripFrom(t, d + i) == StripFrom(t, d + i + 2);
        StripFromAgree(t, d, s, i + 2);
      } else if i + 1 < |s| && s[i] == '[' && !IsSpace(s[i + 1]) {
        var e := RunEnd(s, i + 1, NonSpace);
        RunEndAgree(t, d, s, i + 1, NonSpace);
        assert StripFrom(t, d + i) == StripFrom(t, d + e);
        StripFromAgree(t, d, s, e);
      } else if s[i] == ']' && i + 1 < |s| && s[i + 1] == ']' {
        assert StripFrom(t, d + i) == StripFrom(t, d + i + 2);
        StripFromAgree(t, d, s, i + 2);
      } else if s[i] == ']' {
        assert StripFrom(t, d + i) == StripFrom(t, d + i + 1);
        StripFromAgree(t, d, s, i + 1);
      } else {
        assert StripFrom(t, d + i) == [s[i]] + StripFrom(t, d + i + 1);
        StripFromAgree(t, d, s, i + 1);
      }
    } else {
      assert d + i == |t|;
    }
  }

  lemma StripFromShift(p: string, s: string, i: nat)
    requires i <= |s|
    ensures StripFrom(p + s, |p| + i) == StripFrom(s, i)
  {
    AppendAgrees(p, s);
    StripFromAgree(p + s, |p|, s, i);
  }

  lemma DoubleOpenRemoved(s: string)
    ensures StripBrackets("[[" + s) == StripBrackets(s)
  {
    StripFromShift("[[", s, 0);
  }

  /** A `[` followed by a non-whitespace run is removed with the whole run, so
      a markdown link `[text](url)` leaves nothing. */
  lemma LinkRunRemoved(w: string, rest: string)
    requires w != [] && w[0] != '[' && NoSpace(w) && (rest == [] || IsSpace(rest[0]))
    ensures StripBrackets("[" + w + rest) == StripBrackets(rest)
  {
    var t := "[" + w + rest;
    forall j | 1 <= j < 1 + |w| ensures InClass(t[j], NonSpace) {
      assert t[j] == w[j - 1];
    }
    if rest != [] {
      assert t[1 + |w|] == rest[0];
    }
    RunEndAt(t, 1, NonSpace, 1 + |w|);
    assert t[1] == w[0];
    assert StripFrom(t, 0) == StripFrom(t, 1 + |w|);
    assert t == ("[" + w) + rest;
    StripFromShift("[" + w, rest, 0);
  }

  /** The link `[here](http://x.com/y)`, written as two literals joined. */
  lemma LinkExample()
    ensures StripBrackets("[here](" + "http://x.com/y)") == ""
  {
    LinkRunRemoved("here](http://x.com/y)", "");
    assert "[here](" + "http://x.com/y)" == "[" + "here](http://x.com/y)" + "";
  }

  /** A `]` is removed whether or not a second `]` follows it. */
  lemma {:induction false} CloseSkip(s: string, j: nat)
    requires j < |s| && s[j] == ']'
    ensures StripFrom(s, j) == StripFrom(s, j + 1)
    decreases |s| - j
  {
    if j + 1 < |s| && s[j + 1] == ']' {
      CloseSkip(s, j + 1);
    }
  }

  /** A leading `]` is removed, so `a]b` becomes `ab`. */
  lemma CloseRemoved(s: string)
    ensures StripBrackets("]" + s) == StripBrackets(s)
  {
    CloseSkip("]" + s, 0);
    StripFromShift("]", s, 0);
  }

  lemma DoubleCloseRemoved(s: string)
    ensures StripBrackets("]]" + s) == StripBrackets(s)
  {
    assert "]]" + s == "]" + ("]" + s);
    CloseRemoved("]" + s);
    CloseRemoved(s);
  }

  /** A `[` that ends the text or is followed by whitespace is kept. */
  lemma OpenKept(s: string)
    requires s == [] || IsSpace(s[0])
    ensures StripBrackets("[" + s) == "[" + StripBrackets(s)
  {
    StripFromShift("[", s, 0);
  }

  /** Any character other than `[` and `]` is kept, and the pass goes on
      from the next one. */
  lemma CharKept(c: char, s: string)
    requires c != '[' && c != ']'
    ensures StripBrackets([c] + s) == [c] + StripBrackets(s)
  {
    StripFromShift([c], s, 0);
  }

  /** A stray closing bracket inside a word goes, and the word closes up. */
  lemma CloseInWordExample()
    ensures StripBrackets("a" + ("]" + "b")) == "a" + "b"
  {
    CharKept('a', "]" + "b");
    CloseRemoved("b");
    CharKept('b', "");
    assert [] + "b" == "b";
    assert StripBrackets("") == "";
  }

  /** A stretch without brackets passes through unchanged. */
  lemma {:induction false} BracketFreeKept(w: string, s: string)
    requires forall i :: 0 <= i < |w| ==> w[i] != '[' && w[i] != ']'
    ensures StripBrackets(w + s) == w + StripBrackets(s)
    decreases |w|
  {
    if w != [] {
      assert w + s == [w[0]] + (w[1..] + s);
      CharKept(w[0], w[1..] + s);
      BracketFreeKept(w[1..], s);
      ConcatAssoc([w[0]], w[1..], StripBrackets(s));
    } else {
      assert w + s == s;
    }
  }

  // ---------------------------------------------------------------------
  // replace(/<(?:"[^"]*"['"]*|'[^']*'['"]*|[^'">])+>/g, ' ')

  /** The index of the first `q` in `s` at or after `i`. */
  function FindFrom(s: string, q: char, i: nat): (o: Option<nat>)
    requires i <= |s|
    ensures o.Some? ==> i <= o.value < |s| && s[o.value] == q
    ensures o.Some? ==> forall j :: i <= j < o.value ==> s[j] != q
    ensures o.None? ==> forall j :: i <= j < |s| ==> s[j] != q
    decreases |s| - i
  {
    if i == |s| then None
    else if s[i] == q then Some(i)
    else FindFrom(s, q, i + 1)
  }

  /** The index of the first `q` in `s`. */
  function Find(s: string, q: char): Option<nat> {
    FindFrom(s, q, 0)
  }

  /** The end of one repetition of the tag body group that starts at `i`,
      taking the greedy choice the engine tries first: a quoted string with all
      the quote characters after it, or one character other than a quote or `>`. */
  function ElementEnd(s: string, i: nat): (o: Option<nat>)
    requires i < |s|
    ensures o.Some? ==> i < o.value <= |s|
  {
    if IsQuote(s[i]) then
      match FindFrom(s, s[i], i + 1) {
        case None => None
        case Some(c) => Some(RunEnd(s, c + 1, Quote))
      }
    else if s[i] == '>' then None
    else Some(i + 1)
  }

  /** The end of the rest of a tag from `i`: repetitions of the body group,
      then `>`; `started` says whether one repetition has been seen. */
  function BodyEnd(s: string, i: nat, started: bool): (o: Option<nat>)
    requires i <= |s|
    ensures o.Some? ==> i < o.value <= |s|
    ensures o.Some? && !started ==> i + 2 <= o.value
    decreases |s| - i
  {
    if i == |s| then None
    else if s[i] == '>' then (if started then Some(i + 1) else None)
    else match ElementEnd(s, i) {
      case None => None
      case Some(k) => BodyEnd(s, k, true)
    }
  }

  /** The end of the tag match that starts at `i`, if any. */
  function TagEnd(s: string, i: nat): (o: Option<nat>)
    requires i <= |s|
    ensures o.Some? ==> i + 3 <= o.value <= |s|
  {
    if i < |s| && s[i] == '<' then BodyEnd(s, i + 1, false) else None
  }

  /** The tag pass from index `i`: every tag match becomes a single space. */
  function ReplaceTagsFrom(s: string, i: nat): (r: string)
    requires i <= |s|
    ensures |r| <= |s| - i
    decreases |s| - i
  {
    if i == |s| then []
    else match TagEnd(s, i) {
      case Some(e) => [' '] + ReplaceTagsFrom(s, e)
      case None => [s[i]] + ReplaceTagsFrom(s, i + 1)
    }
  }

  lemma {:induction false} ReplaceTagsPlain(s: string, i: nat)
    requires i <= |s|
    ensures (forall j :: i <= j < |s| ==> s[j] != '<') ==> ReplaceTagsFrom(s, i) == s[i..]
    decreases |s| - i
  {
    if i < |s| {
      ReplaceTagsPlain(s, i + 1);
      assert s[i..] == [s[i]] + s[i + 1..];
    } else {
      assert s[i..] == [];
    }
  }

  /** Replaces every tag match with a single space. */
  function ReplaceTags(s: string): (r: string)
    ensures |r| <= |s|
    ensures (forall i :: 0 <= i < |s| ==> s[i] != '<') ==> r == s
  {
    ReplaceTagsPlain(s, 0);
    assert s[0..] == s;
    ReplaceTagsFrom(s, 0)
  }

  // The language of the tag pattern, as a reference for the scanner above.

  /** One repetition of the group `"[^"]*"['"]*|'[^']*'['"]*|[^'">]`. */
  ghost predicate IsElement(e: string) {
    || (|e| == 1 && !IsQuote(e[0]) && e[0] != '>')
    || (exists j :: 0 < j < |e| && QuotedAt(e, j))
  }

  /** `e` is a quoted string closed at `j`, then quote characters only. */
  ghost predicate QuotedAt(e: string, j: nat)
    requires 0 < j < |e|
  {
    && IsQuote(e[0]) && e[j] == e[0]
    && (forall i :: 0 < i < j ==> e[i] != e[0])
    && (forall i :: j < i < |e| ==> IsQuote(e[i]))
  }

  /** One or more repetitions of the group. */
  ghost predicate IsBody(b: string)
    decreases |b|
  {
    exists n :: 0 < n <= |b| && IsElement(b[..n]) && (n == |b| || IsBody(b[n..]))
  }

  /** A string the tag pattern matches as a whole. */
  ghost predicate IsTag(t: string) {
    |t| >= 3 && t[0] == '<' && t[|t| - 1] == '>' && IsBody(t[1..|t| - 1])
  }

  lemma ElementEndSound(s: string, i: nat)
    requires i < |s| && ElementEnd(s, i).Some?
    ensures IsElement(s[i..ElementEnd(s, i).value])
  {
    var n := ElementEnd(s, i).value;
    var e := s[i..n];
    assert e[0] == s[i];
    if IsQuote(s[i]) {
      var c := FindFrom(s, s[i], i + 1).value;
      RunEndSpan(s, c + 1, Quote);
      assert QuotedAt(e, c - i) by {
        forall m | 0 < m < |e| ensures e[m] == s[i + m] { }
      }
    }
  }

  lemma {:induction false} BodyEndSound(s: string, i: nat, started: bool)
    requires i <= |s| && BodyEnd(s, i, started).Some?
    ensures var e := BodyEnd(s, i, started).value;
      s[e - 1] == '>' && (e == i + 1 ==> started) && (e > i + 1 ==> IsBody(s[i..e - 1]))
    decreases |s| - i
  {
    var e := BodyEnd(s, i, started).value;
    if s[i] != '>' {
      var k := ElementEnd(s, i).value;
      assert BodyEnd(s, i, started) == BodyEnd(s, k, true);
      ElementEndSound(s, i);
      BodyEndSound(s, k, true);
      BodyCons(s, i, k, e - 1);
    }
  }

  /** An element followed by a body, or by nothing, is a body. */
  lemma BodyCons(s: string, i: nat, k: nat, m: nat)
    requires i < k <= m <= |s|
    requires IsElement(s[i..k]) && (k == m || IsBody(s[k..m]))
    ensures IsBody(s[i..m])
  {
    var b := s[i..m];
    assert b[..k - i] == s[i..k];
    if k < m {
      assert b[k - i..] == s[k..m];
    }
    assert IsElement(b[..k - i]) && (k - i == |b| || IsBody(b[k - i..]));
  }

  /** Every span the scanner replaces is matched by the tag pattern. */
  lemma TagEndSound(s: string, i: nat)
    requires i <= |s| && TagEnd(s, i).Some?
    ensures IsTag(s[i..TagEnd(s, i).value])
  {
    var e := TagEnd(s, i).value;
    BodyEndSound(s, i + 1, false);
    var t := s[i..e];
    assert t[1..|t| - 1] == s[i + 1..e - 1];
  }

  /** A quote-free body up to the first `>` is matched whole. */
  lemma {:induction false} PlainBodyMatched(s: string, i: nat, n: nat, started: bool)
    requires i <= n < |s| && s[n] == '>'
    requires forall j :: i <= j < n ==> !IsQuote(s[j]) && s[j] != '>'
    requires started || i < n
    ensures BodyEnd(s, i, started) == Some(n + 1)
    decreases n - i
  {
    if i < n {
      PlainBodyMatched(s, i + 1, n, true);
    }
  }

  lemma PlainTagMatched(b: string, rest: string)
    requires b != []
    requires forall i :: 0 <= i < |b| ==> !IsQuote(b[i]) && b[i] != '>'
    ensures TagEnd("<" + b + ">" + rest, 0) == Some(|b| + 2)
  {
    var t := "<" + b + ">" + rest;
    forall j | 1 <= j < |b| + 1 ensures t[j] == b[j - 1] { }
    PlainBodyMatched(t, 1, |b| + 1, false);
  }

  /** `o` moved `d` places to the right. */
  function ShiftBy(o: Option<nat>, d: nat): Option<nat> {
    match o
    case None => None
    case Some(n) => Some(d + n)
  }

  /** The tag scanners depend only on the text from where they start. */
  lemma {:induction false} FindFromAgree(t: string, d: nat, s: string, q: char, i: nat)
    requires Agrees(t, d, s) && i <= |s|
    ensures FindFrom(t, q, d + i) == ShiftBy(FindFrom(s, q, i), d)
    decreases |s| - i
  {
    if i < |s| {
      assert t[d + i] == s[i];
      FindFromAgree(t, d, s, q, i + 1);
    }
  }

  lemma ElementEndAgree(t: string, d: nat, s: string, i: nat)
    requires Agrees(t, d, s) && i < |s|
    ensures ElementEnd(t, d + i) == ShiftBy(ElementEnd(s, i), d)
  {
    assert t[d + i] == s[i];
    FindFromAgree(t, d, s, s[i], i + 1);
    if IsQuote(s[i]) && FindFrom(s, s[i], i + 1).Some? {
      RunEndAgree(t, d, s, FindFrom(s, s[i], i + 1).value + 1, Quote);
    }
  }

  lemma {:induction false} BodyEndAgree(t: string, d: nat, s: string, i: nat, started: bool)
    requires Agrees(t, d, s) && i <= |s|
    ensures BodyEnd(t, d + i, started) == ShiftBy(BodyEnd(s, i, started), d)
    decreases |s| - i
  {
    if i < |s| {
      assert t[d + i] == s[i];
      if s[i] != '>' {
        ElementEndAgree(t, d, s, i);
        if ElementEnd(s, i).Some? {
          BodyEndAgree(t, d, s, ElementEnd(s, i).value, true);
        }
      }
    }
  }

  lemma TagEndAgree(t: string, d: nat, s: string, i: nat)
    requires Agrees(t, d, s) && i <= |s|
    ensures TagEnd(t, d + i) == ShiftBy(TagEnd(s, i), d)
  {
    if i < |s| {
      assert t[d + i] == s[i];
      BodyEndAgree(t, d, s, i + 1, false);
    }
  }

  lemma {:induction false} ReplaceTagsFromAgree(t: string, d: nat, s: string, i: nat)
    requires Agrees(t, d, s) && i <= |s|
    ensures ReplaceTagsFrom(t, d + i) == ReplaceTagsFrom(s, i)
    decreases |s| - i
  {
    if i < |s| {
      TagEndAgree(t, d, s, i);
      var o := TagEnd(s, i);
      if o.Some? {
        var e := o.value;
        assert TagEnd(t, d + i) == Some(d + e);
        assert ReplaceTagsFrom(t, d + i) == [' '] + ReplaceTagsFrom(t, d + e);
        ReplaceTagsFromAgree(t, d, s, e);
      } else {
        assert TagEnd(t, d + i).None? && t[d + i] == s[i];
        assert ReplaceTagsFrom(t, d + i) == [s[i]] + ReplaceTagsFrom(t, d + i + 1);
        ReplaceTagsFromAgree(t, d, s, i + 1);
      }
    } else {
      assert d + i == |t|;
    }
  }

  lemma SuffixAgrees(s: string, e: nat)
    requires e <= |s|
    ensures Agrees(s, e, s[e..])
  {
  }

  /** A tag match at the start becomes one space, and the pass goes on
      after the match. */
  lemma TagReplaced(s: string)
    requires TagEnd(s, 0).Some?
    ensures ReplaceTags(s) == " " + ReplaceTags(s[TagEnd(s, 0).value..])
  {
    var e := TagEnd(s, 0).value;
    SuffixAgrees(s, e);
    ReplaceTagsFromAgree(s, e, s[e..], 0);
  }

  /** Where no tag match starts, the first character is kept and the pass
      goes on from the next one. */
  lemma NonTagKept(s: string)
    requires s != [] && TagEnd(s, 0).None?
    ensures ReplaceTags(s) == [s[0]] + ReplaceTags(s[1..])
  {
    SuffixAgrees(s, 1);
    ReplaceTagsFromAgree(s, 1, s[1..], 0);
  }

  /** A quote-free tag `<b>` in front of the rest becomes one space. */
  lemma PlainTagReplaced(b: string, rest: string)
    requires b != [] && forall i :: 0 <= i < |b| ==> !IsQuote(b[i]) && b[i] != '>'
    ensures ReplaceTags("<" + b + ">" + rest) == " " + ReplaceTags(rest)
  {
    var t := "<" + b + ">" + rest;
    PlainTagMatched(b, rest);
    TagReplaced(t);
    assert t[|b| + 2..] == rest;
  }

  /** A stretch without `<` passes through unchanged. */
  lemma {:induction false} TagFreeKept(w: string, s: string)
    requires forall i :: 0 <= i < |w| ==> w[i] != '<'
    ensures ReplaceTags(w + s) == w + ReplaceTags(s)
    decreases |w|
  {
    if w != [] {
      var t := w + s;
      assert t[0] == w[0] && t[1..] == w[1..] + s;
      NonTagKept(t);
      TagFreeKept(w[1..], s);
      ConcatAssoc([w[0]], w[1..], ReplaceTags(s));
    } else {
      assert w + s == s;
    }
  }

  lemma TagExample()
    ensures ReplaceTags("a<b>c") == "a c"
  {
    PlainTagReplaced("b", "c");
    assert "a<b>c"[1..] == "<" + "b" + ">" + "c";
    NonTagKept("a<b>c");
  }

  // ---------------------------------------------------------------------
  // replace(/[\p{P}]/gu, ' ')

  predicate NoPunct(w: string) {
    forall i :: 0 <= i < |w| ==> !IsPunct(w[i])
  }

  /** Every punctuation mark becomes a space; every other character stays. */
  function ReplacePunct(s: string): (r: string)
    ensures |r| == |s| && NoPunct(r)
    ensures forall i :: 0 <= i < |s| ==> r[i] == if IsPunct(s[i]) then ' ' else s[i]
  {
    seq(|s|, i requires 0 <= i < |s| => if IsPunct(s[i]) then ' ' else s[i])
  }

  lemma NoPunctSlice(s: string, i: nat, j: nat)
    requires NoPunct(s) && i <= j <= |s|
    ensures NoPunct(s[i..j])
  {
    forall n | 0 <= n < j - i ensures !IsPunct(s[i..j][n]) {
      assert s[i..j][n] == s[i + n];
    }
  }

  /** A text without punctuation passes the punctuation pass unchanged. */
  lemma PunctFreeKept(s: string)
    requires NoPunct(s)
    ensures ReplacePunct(s) == s
  {
  }

  // ---------------------------------------------------------------------
  // split(/\s+/)

  /** The pieces joined back with `sep` between them. */
  function Join(pieces: seq<string>, sep: string): string {
    if pieces == [] then []
    else if |pieces| == 1 then pieces[0]
    else pieces[0] + sep + Join(pieces[1..], sep)
  }

  lemma JoinCons(x: string, rest: seq<string>, sep: string)
    requires rest != []
    ensures Join([x] + rest, sep) == x + sep + Join(rest, sep)
  {
    assert ([x] + rest)[1..] == rest;
  }

  lemma ConcatAssoc<T>(a: seq<T>, b: seq<T>, c: seq<T>)
    ensures a + (b + c) == a + b + c
  {
  }

  lemma SliceNoSpace(s: string, i: nat, j: nat)
    requires i <= j <= |s| && forall m :: i <= m < j ==> !IsSpace(s[m])
    ensures NoSpace(s[i..j])
  {
    forall n | 0 <= n < j - i ensures !IsSpace(s[i..j][n]) {
      assert s[i..j][n] == s[i + n];
    }
  }

  /** The split from index `i`: the pieces between maximal whitespace runs. */
  function SplitFrom(s: string, i: nat): (r: seq<string>)
    requires i <= |s|
    ensures |r| >= 1
    decreases |s| - i
  {
    var j := RunEnd(s, i, NonSpace);
    if j == |s| then [Piece(s, i, j)] else [Piece(s, i, j)] + SplitFrom(s, RunEnd(s, j, Space))
  }

  lemma {:induction false} SplitFromNoSpace(s: string, i: nat)
    requires i <= |s|
    ensures forall k :: 0 <= k < |SplitFrom(s, i)| ==> NoSpace(SplitFrom(s, i)[k])
    decreases |s| - i
  {
    var j := RunEnd(s, i, NonSpace);
    PieceSlice(s, i, j);
    RunEndSpan(s, i, NonSpace);
    SliceNoSpace(s, i, j);
    if j < |s| {
      var n := RunEnd(s, j, Space);
      SplitFromNoSpace(s, n);
      var r := SplitFrom(s, i);
      var rest := SplitFrom(s, n);
      assert r == [s[i..j]] + rest;
      forall k | 0 < k < |r| ensures r[k] == rest[k - 1] { }
    } else {
      assert s[i..] == s[i..j];
    }
  }

  /** `split(/\s+/)`: the pieces between maximal whitespace runs, with an empty
      first (last) piece when `s` starts (ends) with whitespace; `""` splits
      into `[""]`. */
  function SplitOnSpace(s: string): (r: seq<string>)
    ensures |r| >= 1
    ensures forall i :: 0 <= i < |r| ==> NoSpace(r[i])
  {
    SplitFromNoSpace(s, 0);
    SplitFrom(s, 0)
  }

  /** The split depends only on the text from where it starts. */
  lemma {:induction false} SplitFromAgree(t: string, d: nat, s: string, i: nat)
    requires Agrees(t, d, s) && i <= |s|
    ensures SplitFrom(t, d + i) == SplitFrom(s, i)
    decreases |s| - i
  {
    var e := RunEnd(s, i, NonSpace);
    RunEndAgree(t, d, s, i, NonSpace);
    PieceAgree(t, d, s, i, e);
    if e < |s| {
      var n := RunEnd(s, e, Space);
      RunEndAgree(t, d, s, e, Space);
      SplitFromAgree(t, d, s, n);
    }
  }

  lemma SplitFromShift(p: string, s: string, i: nat)
    requires i <= |s|
    ensures SplitFrom(p + s, |p| + i) == SplitFrom(s, i)
  {
    AppendAgrees(p, s);
    SplitFromAgree(p + s, |p|, s, i);
  }

  /** `s` from index `i` with every maximal whitespace run collapsed to one space. */
  function CollapseFrom(s: string, i: nat): string
    requires i <= |s|
    decreases |s| - i
  {
    if i == |s| then []
    else if IsSpace(s[i]) then " " + CollapseFrom(s, RunEnd(s, i, Space))
    else [s[i]] + CollapseFrom(s, i + 1)
  }

  function CollapseSpaces(s: string): string {
    CollapseFrom(s, 0)
  }

  lemma {:induction false} CollapseWord(s: string, i: nat, j: nat)
    requires i <= j <= |s| && forall m :: i <= m < j ==> !IsSpace(s[m])
    ensures CollapseFrom(s, i) == s[i..j] + CollapseFrom(s, j)
    decreases j - i
  {
    if i < j {
      CollapseWord(s, i + 1, j);
      assert s[i..j] == [s[i]] + s[i + 1..j];
      ConcatAssoc([s[i]], s[i + 1..j], CollapseFrom(s, j));
    }
  }

  lemma {:induction false} SplitFromJoin(s: string, i: nat)
    requires i <= |s|
    ensures Join(SplitFrom(s, i), " ") == CollapseFrom(s, i)
    decreases |s| - i
  {
    var j := RunEnd(s, i, NonSpace);
    PieceSlice(s, i, j);
    RunEndSpan(s, i, NonSpace);
    CollapseWord(s, i, j);
    if j == |s| {
      assert s[i..j] == s[i..] && s[i..j] + [] == s[i..j];
    } else {
      var n := RunEnd(s, j, Space);
      SplitFromJoin(s, n);
      JoinCons(s[i..j], SplitFrom(s, n), " ");
      ConcatAssoc(s[i..j], " ", CollapseFrom(s, n));
    }
  }

  /** The pieces, joined with single spaces, give back `s` with its
      whitespace runs collapsed: the split loses nothing but whitespace. */
  lemma SplitOnSpaceJoin(s: string)
    ensures Join(SplitOnSpace(s), " ") == CollapseSpaces(s)
  {
    SplitFromJoin(s, 0);
  }

  lemma SplitFirstNonEmpty(s: string, i: nat)
    requires i < |s| && !IsSpace(s[i])
    ensures SplitFrom(s, i)[0] != []
  {
    var j := RunEnd(s, i, NonSpace);
    PieceSlice(s, i, j);
    assert |s[i..j]| > 0;
  }

  lemma LastOfCons<T>(r: seq<T>, w: T, rest: seq<T>)
    requires r == [w] + rest && rest != []
    ensures r[|r| - 1] == rest[|rest| - 1]
  {
  }

  lemma {:induction false} SplitLastNonEmpty(s: string, i: nat)
    requires i < |s| && !IsSpace(s[|s| - 1])
    ensures SplitFrom(s, i)[|SplitFrom(s, i)| - 1] != []
    decreases |s| - i
  {
    var j := RunEnd(s, i, NonSpace);
    PieceSlice(s, i, j);
    if j < |s| {
      var n := RunEnd(s, j, Space);
      RunEndSpan(s, j, Space);
      SplitLastNonEmpty(s, n);
      LastOfCons(SplitFrom(s, i), s[i..j], SplitFrom(s, n));
    }
  }

  lemma MiddleOfCons(r: seq<string>, w: string, rest: seq<string>)
    requires r == [w] + rest && rest != []
    requires |rest| > 1 ==> rest[0] != []
    requires forall i :: 0 < i < |rest| - 1 ==> rest[i] != []
    ensures forall i :: 0 < i < |r| - 1 ==> r[i] != []
  {
    forall i | 0 < i < |r| - 1 ensures r[i] != [] {
      assert r[i] == rest[i - 1];
    }
  }

  lemma {:induction false} SplitMiddleNonEmpty(s: string, i: nat)
    requires i <= |s|
    ensures forall k :: 0 < k < |SplitFrom(s, i)| - 1 ==> SplitFrom(s, i)[k] != []
    decreases |s| - i
  {
    var j := RunEnd(s, i, NonSpace);
    PieceSlice(s, i, j);
    if j < |s| {
      var n := RunEnd(s, j, Space);
      SplitMiddleNonEmpty(s, n);
      if n < |s| {
        SplitFirstNonEmpty(s, n);
      } else {
        assert SplitFrom(s, n) == [[]];
      }
      MiddleOfCons(SplitFrom(s, i), s[i..j], SplitFrom(s, n));
    }
  }

  /** Empty pieces occur only first (leading whitespace) or last (trailing
      whitespace). */
  lemma SplitOnSpaceEmpties(s: string)
    ensures var r := SplitOnSpace(s);
      && (forall i :: 0 < i < |r| - 1 ==> r[i] != [])
      && (s != [] && !IsSpace(s[0]) ==> r[0] != [])
      && (s != [] && !IsSpace(s[|s| - 1]) ==> r[|r| - 1] != [])
  {
    SplitMiddleNonEmpty(s, 0);
    if s != [] && !IsSpace(s[0]) {
      SplitFirstNonEmpty(s, 0);
    }
    if s != [] && !IsSpace(s[|s| - 1]) {
      SplitLastNonEmpty(s, 0);
    }
  }

  lemma SplitOfWord(w: string)
    requires NoSpace(w)
    ensures SplitOnSpace(w) == [w]
  {
    RunEndAt(w, 0, NonSpace, |w|);
    PieceSlice(w, 0, |w|);
    assert w[0..|w|] == w;
  }

  /** In a word, a whitespace run and a rest that does not start with
      whitespace, the word ends where the run starts and the run ends where
      the rest starts. */
  lemma WordThenGap(w: string, gap: string, rest: string)
    requires NoSpace(w) && forall i :: 0 <= i < |gap| ==> IsSpace(gap[i])
    requires rest == [] || !IsSpace(rest[0])
    ensures gap != [] ==> RunEnd(w + gap + rest, 0, NonSpace) == |w|
    ensures RunEnd(w + gap + rest, |w|, Space) == |w| + |gap|
  {
    var t := w + gap + rest;
    forall j | 0 <= j < |w| ensures InClass(t[j], NonSpace) {
      assert t[j] == w[j];
    }
    if gap != [] {
      RunEndAt(t, 0, NonSpace, |w|);
    }
    forall j | |w| <= j < |w| + |gap| ensures InClass(t[j], Space) {
      assert t[j] == gap[j - |w|];
    }
    if rest != [] {
      assert t[|w| + |gap|] == rest[0];
    }
    RunEndAt(t, |w|, Space, |w| + |gap|);
  }

  /** Splitting at a whitespace run between a word and a rest that does not
      start with whitespace. */
  lemma SplitAtSpace(w: string, gap: string, rest: string)
    requires NoSpace(w) && gap != [] && forall i :: 0 <= i < |gap| ==> IsSpace(gap[i])
    requires rest == [] || !IsSpace(rest[0])
    ensures SplitOnSpace(w + gap + rest) == [w] + SplitOnSpace(rest)
  {
    var t := w + gap + rest;
    WordThenGap(w, gap, rest);
    PieceSlice(t, 0, |w|);
    assert t[..|w|] == w;
    assert t == (w + gap) + rest;
    SplitFromShift(w + gap, rest, 0);
  }

  // ---------------------------------------------------------------------
  // split(/\r\n?|\n/)

  /** The length of the separator at `s[k]`: 2 for `\r\n`, 1 otherwise. */
  function BreakLength(s: string, k: nat): nat
    requires k < |s|
  {
    if s[k] == '\r' && k + 1 < |s| && s[k + 1] == '\n' then 2 else 1
  }

  /** The line split from index `i`. */
  function LinesFrom(s: string, i: nat): (r: seq<string>)
    requires i <= |s|
    ensures |r| >= 1
    decreases |s| - i
  {
    var j := RunEnd(s, i, NonBreak);
    if j == |s| then [Piece(s, i, j)] else [Piece(s, i, j)] + LinesFrom(s, j + BreakLength(s, j))
  }

  lemma SliceNoBreak(s: string, i: nat, j: nat)
    requires i <= j <= |s| && forall m :: i <= m < j ==> !IsBreak(s[m])
    ensures NoBreak(s[i..j])
  {
    forall n | 0 <= n < j - i ensures !IsBreak(s[i..j][n]) {
      assert s[i..j][n] == s[i + n];
    }
  }

  lemma {:induction false} LinesFromNoBreak(s: string, i: nat)
    requires i <= |s|
    ensures forall k :: 0 <= k < |LinesFrom(s, i)| ==> NoBreak(LinesFrom(s, i)[k])
    decreases |s| - i
  {
    var j := RunEnd(s, i, NonBreak);
    PieceSlice(s, i, j);
    RunEndSpan(s, i, NonBreak);
    SliceNoBreak(s, i, j);
    if j < |s| {
      var n := j + BreakLength(s, j);
      LinesFromNoBreak(s, n);
      var r := LinesFrom(s, i);
      var rest := LinesFrom(s, n);
      assert r == [s[i..j]] + rest;
      forall k | 0 < k < |r| ensures r[k] == rest[k - 1] { }
    } else {
      assert s[i..] == s[i..j];
    }
  }

  /** `split(/\r\n?|\n/)`: the lines between `\r\n`, `\r` and `\n` separators. */
  function SplitLines(s: string): (r: seq<string>)
    ensures |r| >= 1
    ensures forall i :: 0 <= i < |r| ==> NoBreak(r[i])
  {
    LinesFromNoBreak(s, 0);
    LinesFrom(s, 0)
  }

  /** `s` from index `i` with every `\r\n` and every lone `\r` written as `\n`. */
  function NormalizeFrom(s: string, i: nat): string
    requires i <= |s|
    decreases |s| - i
  {
    if i == |s| then []
    else if IsBreak(s[i]) then "\n" + NormalizeFrom(s, i + BreakLength(s, i))
    else [s[i]] + NormalizeFrom(s, i + 1)
  }

  function NormalizeBreaks(s: string): string {
    NormalizeFrom(s, 0)
  }

  lemma {:induction false} NormalizeLine(s: string, i: nat, j: nat)
    requires i <= j <= |s| && forall m :: i <= m < j ==> !IsBreak(s[m])
    ensures NormalizeFrom(s, i) == s[i..j] + NormalizeFrom(s, j)
    decreases j - i
  {
    if i < j {
      NormalizeLine(s, i + 1, j);
      assert s[i..j] == [s[i]] + s[i + 1..j];
      ConcatAssoc([s[i]], s[i + 1..j], NormalizeFrom(s, j));
    }
  }

  lemma {:induction false} LinesFromJoin(s: string, i: nat)
    requires i <= |s|
    ensures Join(LinesFrom(s, i), "\n") == NormalizeFrom(s, i)
    decreases |s| - i
  {
    var j := RunEnd(s, i, NonBreak);
    LinesFromStep(s, i);
    if j < |s| {
      var n := j + BreakLength(s, j);
      LinesFromJoin(s, n);
      JoinLineStep(s[i..j], LinesFrom(s, n), NormalizeFrom(s, n));
    }
  }

  /** One line of the split from `i`, and the matching stretch of the
      normalised text. */
  lemma LinesFromStep(s: string, i: nat)
    requires i <= |s|
    ensures var j := RunEnd(s, i, NonBreak);
      j == |s| ==> LinesFrom(s, i) == [s[i..]] && NormalizeFrom(s, i) == s[i..]
    ensures var j := RunEnd(s, i, NonBreak);
      j < |s| ==> var n := j + BreakLength(s, j);
        && LinesFrom(s, i) == [s[i..j]] + LinesFrom(s, n)
        && NormalizeFrom(s, i) == s[i..j] + ("\n" + NormalizeFrom(s, n))
  {
    var j := RunEnd(s, i, NonBreak);
    PieceSlice(s, i, j);
    RunEndSpan(s, i, NonBreak);
    NormalizeLine(s, i, j);
    if j == |s| {
      assert s[i..j] == s[i..] && s[i..j] + [] == s[i..j];
    } else {
      assert NormalizeFrom(s, j) == "\n" + NormalizeFrom(s, j + BreakLength(s, j));
    }
  }

  lemma JoinLineStep(x: string, rest: seq<string>, tail: string)
    requires rest != [] && Join(rest, "\n") == tail
    ensures Join([x] + rest, "\n") == x + ("\n" + tail)
  {
    JoinCons(x, rest, "\n");
    ConcatAssoc(x, "\n", tail);
  }

  /** The lines, joined with `\n`, give back `s` with its separators written
      as `\n`: as no line holds a break, this fixes every line. */
  lemma SplitLinesJoin(s: string)
    ensures Join(SplitLines(s), "\n") == NormalizeBreaks(s)
  {
    LinesFromJoin(s, 0);
  }

  /** The line split depends only on the text from where it starts. */
  lemma {:induction false} LinesFromAgree(t: string, d: nat, s: string, i: nat)
    requires Agrees(t, d, s) && i <= |s|
    ensures LinesFrom(t, d + i) == LinesFrom(s, i)
    decreases |s| - i
  {
    var e := RunEnd(s, i, NonBreak);
    RunEndAgree(t, d, s, i, NonBreak);
    PieceAgree(t, d, s, i, e);
    if e < |s| {
      assert t[d + e] == s[e];
      if e + 1 < |s| {
        assert t[d + e + 1] == s[e + 1];
      }
      assert BreakLength(t, d + e) == BreakLength(s, e);
      LinesFromAgree(t, d, s, e + BreakLength(s, e));
    }
  }

  lemma LinesFromShift(p: string, s: string, i: nat)
    requires i <= |s|
    ensures LinesFrom(p + s, |p| + i) == LinesFrom(s, i)
  {
    AppendAgrees(p, s);
    LinesFromAgree(p + s, |p|, s, i);
  }

  lemma SplitLinesOfLine(line: string)
    requires NoBreak(line)
    ensures SplitLines(line) == [line]
  {
    RunEndAt(line, 0, NonBreak, |line|);
    PieceSlice(line, 0, |line|);
    assert line[0..|line|] == line;
  }

  /** Splitting at a `\n` between a line and the rest. */
  lemma SplitLinesAtNewline(line: string, rest: string)
    requires NoBreak(line)
    ensures SplitLines(line + "\n" + rest) == [line] + SplitLines(rest)
  {
    var t := line + "\n" + rest;
    forall j | 0 <= j < |line| ensures InClass(t[j], NonBreak) {
      assert t[j] == line[j];
    }
    RunEndAt(t, 0, NonBreak, |line|);
    assert BreakLength(t, |line|) == 1;
    PieceSlice(t, 0, |line|);
    assert t[..|line|] == line;
    assert t == (line + "\n") + rest;
    LinesFromShift(line + "\n", rest, 0);
  }

  // ---------------------------------------------------------------------
  // line.match(/^[A-Z]+[ ].*/)

  /** The pattern `^[A-Z]+[ ].*` matches: capitals, then a space. */
  predicate IsHeaderLine(line: string)
    ensures IsHeaderLine(line) ==> 2 <= |line| && IsAsciiUpper(line[0])
  {
    var k := RunEnd(line, 0, Capital);
    RunEndSpan(line, 0, Capital);
    0 < k < |line| && line[k] == ' '
  }

  /** The pattern read as a language: some non-empty prefix of ASCII capitals
      is followed by the space character (`.*` accepts whatever comes next). */
  ghost predicate MatchesHeader(line: string) {
    exists k :: 0 < k < |line| && line[k] == ' ' && forall i :: 0 <= i < k ==> IsAsciiUpper(line[i])
  }

  lemma HeaderLineIff(line: string)
    ensures IsHeaderLine(line) <==> MatchesHeader(line)
  {
    RunEndSpan(line, 0, Capital);
    if MatchesHeader(line) {
      var k :| 0 < k < |line| && line[k] == ' ' && forall i :: 0 <= i < k ==> IsAsciiUpper(line[i]);
      RunEndAt(line, 0, Capital, k);
    }
  }

  // ---------------------------------------------------------------------
  // The two normalisers, up to the words they hand to `words.count`

  function Lowered(ws: seq<string>): (r: seq<string>)
    ensures |r| == |ws|
    ensures forall i :: 0 <= i < |ws| ==> r[i] == ToLower(ws[i])
  {
    seq(|ws|, i requires 0 <= i < |ws| => ToLower(ws[i]))
  }

  /** The `split(/\s+/)` result of `extractItemText`, before lower-casing. */
  function ItemPieces(text: string): seq<string> {
    SplitOnSpace(ReplacePunct(ReplaceTags(StripBrackets(Trim(text)))))
  }

  /** The `split(/\s+/)` result of `extractLineText`, before lower-casing. */
  function LinePieces(line: string): seq<string> {
    SplitOnSpace(StripBrackets(Trim(line)))
  }

  /** The words `extractItemText` counts, in order, before the counter's
      zero-length guard: trim, strip link markers, tags to spaces,
      punctuation to spaces, split on whitespace, lower-case. */
  function ItemWords(text: string): (r: seq<string>)
    ensures |r| >= 1
    ensures forall i :: 0 <= i < |r| ==> NoSpace(r[i]) && NoPunct(r[i]) && IsLower(r[i])
  {
    var pieces := ItemPieces(text);
    SplitNoPunct(ReplacePunct(ReplaceTags(StripBrackets(Trim(text)))), 0);
    forall i | 0 <= i < |pieces| ensures NoPunct(ToLower(pieces[i])) && NoSpace(ToLower(pieces[i])) {
      LowerKeepsClasses(pieces[i]);
    }
    Lowered(pieces)
  }

  /** The words `extractLineText` counts: as `ItemWords`, without the tag and
      punctuation passes, so `[` may end a word. */
  function LineWords(line: string): (r: seq<string>)
    ensures |r| >= 1
    ensures forall i :: 0 <= i < |r| ==> NoSpace(r[i]) && IsLower(r[i]) && BracketFree(r[i])
  {
    var stripped := StripBrackets(Trim(line));
    var pieces := LinePieces(line);
    StripBracketsClean(Trim(line));
    SplitBracketFree(stripped, 0);
    forall i | 0 <= i < |pieces| ensures BracketFree(ToLower(pieces[i])) && NoSpace(ToLower(pieces[i])) {
      assert BracketFree(pieces[i]);
      LowerKeepsClasses(pieces[i]);
    }
    Lowered(pieces)
  }

  lemma LowerKeepsClasses(w: string)
    ensures NoSpace(w) ==> NoSpace(ToLower(w))
    ensures NoPunct(w) ==> NoPunct(ToLower(w))
    ensures BracketFree(w) ==> BracketFree(ToLower(w))
  {
    var l := ToLower(w);
    forall i | 0 <= i < |w|
      ensures (IsSpace(l[i]) <==> IsSpace(w[i])) && (IsPunct(l[i]) <==> IsPunct(w[i]))
      ensures (l[i] == ']' <==> w[i] == ']') && (l[i] == '[' <==> w[i] == '[')
    {
      assert l[i] == LowerChar(w[i]);
    }
  }

  /** The pieces of a punctuation-free string are punctuation-free. */
  lemma {:induction false} SplitNoPunct(s: string, i: nat)
    requires NoPunct(s) && i <= |s|
    ensures forall k :: 0 <= k < |SplitFrom(s, i)| ==> NoPunct(SplitFrom(s, i)[k])
    decreases |s| - i
  {
    var j := RunEnd(s, i, NonSpace);
    PieceSlice(s, i, j);
    NoPunctSlice(s, i, j);
    if j < |s| {
      var n := RunEnd(s, j, Space);
      SplitNoPunct(s, n);
      var r := SplitFrom(s, i);
      var rest := SplitFrom(s, n);
      assert r == [s[i..j]] + rest;
      forall k | 0 < k < |r| ensures r[k] == rest[k - 1] { }
    } else {
      assert s[i..] == s[i..j];
    }
  }

  /** No `]`, and `[` at most as the last character. */
  predicate BracketFree(w: string) {
    forall i :: 0 <= i < |w| ==> w[i] != ']' && (w[i] == '[' ==> i == |w| - 1)
  }

  /** A non-whitespace run of a text without link markers has no `]`, and a
      `[` only at its end. */
  lemma WordBracketFree(s: string, i: nat)
    requires NoLinkMarkers(s) && i <= |s|
    ensures BracketFree(s[i..RunEnd(s, i, NonSpace)])
  {
    var j := RunEnd(s, i, NonSpace);
    var w := s[i..j];
    RunEndSpan(s, i, NonSpace);
    forall k | 0 <= k < |w| ensures w[k] != ']' && (w[k] == '[' ==> k == |w| - 1) {
      assert w[k] == s[i + k];
      assert MarkerOk(s, i + k);
      if i + k + 1 < j {
        assert InClass(s[i + k + 1], NonSpace);
      }
    }
  }

  lemma {:induction false} SplitBracketFree(s: string, i: nat)
    requires NoLinkMarkers(s) && i <= |s|
    ensures forall k :: 0 <= k < |SplitFrom(s, i)| ==> BracketFree(SplitFrom(s, i)[k])
    decreases |s| - i
  {
    var j := RunEnd(s, i, NonSpace);
    PieceSlice(s, i, j);
    WordBracketFree(s, i);
    if j < |s| {
      var n := RunEnd(s, j, Space);
      SplitBracketFree(s, n);
      var r := SplitFrom(s, i);
      var rest := SplitFrom(s, n);
      assert r == [s[i..j]] + rest;
      forall k | 0 < k < |r| ensures r[k] == rest[k - 1] { }
    } else {
      assert s[i..] == s[i..j];
    }
  }

  /** A line with no link markers and no surrounding whitespace yields its
      whitespace-separated words, lower-cased. */
  lemma PlainLineWords(line: string)
    requires line != [] && !IsSpace(line[0]) && !IsSpace(line[|line| - 1]) && NoLinkMarkers(line)
    ensures LineWords(line) == Lowered(SplitOnSpace(line))
  {
    TrimOfTrimmed(line);
    StripBracketsFixpoint(line);
  }

  // One text through the whole of `extractItemText`, pass by pass, each
  // step its own lemma. Texts are written as literals joined together.

  lemma ExampleLink()
    ensures StripBrackets("[" + "here](http://x.com/y)" + (" and " + "<b>bold</b>")) == " and " + "<b>bold</b>"
  {
    var tail := " and " + "<b>bold</b>";
    BracketFreeKept(tail, "");
    assert tail + "" == tail;
    LinkRunRemoved("here](http://x.com/y)", tail);
  }

  lemma ExampleIs()
    ensures StripBrackets("]]" + (" is " + ("[" + "here](http://x.com/y)" + (" and " + "<b>bold</b>"))))
      == " is " + (" and " + "<b>bold</b>")
  {
    var after := "[" + "here](http://x.com/y)" + (" and " + "<b>bold</b>");
    ExampleLink();
    BracketFreeKept(" is ", after);
    DoubleCloseRemoved(" is " + after);
  }

  /** Regrouping of a six-part concatenation, kept symbolic so that the
      verifier does not evaluate the literals of the example. */
  lemma Reassociate(a: string, b: string, c: string, d: string, e: string, f: string)
    ensures a + (b + (c + d)) + e + f == a + (b + (c + (d + (e + f))))
  {
  }

  /** The example text, split at the places the bracket pass works on; the
      literal equality is proved apart so that the pass lemmas see only
      concatenations. */
  lemma ExamplePieces()
    ensures "[[Hello World]] is " + "[here](http://x.com/y)" + " and <b>bold</b>"
      == "[[" + ("Hello World" + ("]]" + (" is " + ("[" + "here](http://x.com/y)" + (" and " + "<b>bold</b>")))))
  {
    assert "[[Hello World]] is " == "[[" + ("Hello World" + ("]]" + " is "));
    assert "[here](http://x.com/y)" == "[" + "here](http://x.com/y)";
    assert " and <b>bold</b>" == " and " + "<b>bold</b>";
    Reassociate("[[", "Hello World", "]]", " is ", "[" + "here](http://x.com/y)", " and " + "<b>bold</b>");
  }

  /** The text after the tag pass, split into words and whitespace runs; the
      literal equality is proved apart so that the split lemmas see only
      concatenations. */
  lemma ExampleWordPieces()
    ensures "Hello World is  and " + " bold "
      == "Hello" + " " + ("World" + " " + ("is" + "  " + ("and" + "  " + ("bold" + " " + ""))))
  {
    assert "Hello World is  and " + " bold " == "Hello World is  and  bold ";
  }

  lemma ExampleBrackets()
    ensures StripBrackets("[[Hello World]] is " + "[here](http://x.com/y)" + " and <b>bold</b>")
      == "Hello World" + (" is " + (" and " + "<b>bold</b>"))
  {
    var after := "]]" + (" is " + ("[" + "here](http://x.com/y)" + (" and " + "<b>bold</b>")));
    ExamplePieces();
    ExampleIs();
    BracketFreeKept("Hello World", after);
    DoubleOpenRemoved("Hello World" + after);
  }

  lemma ExampleClosingTag()
    ensures ReplaceTags("bold" + "</b>") == "bold" + " "
  {
    PlainTagReplaced("/b", "");
    assert "<" + "/b" + ">" + "" == "</b>";
    TagFreeKept("bold", "</b>");
  }

  lemma ExampleTags()
    ensures ReplaceTags("Hello World" + (" is " + (" and " + "<b>bold</b>"))) == "Hello World is  and " + " bold "
  {
    ExampleClosingTag();
    PlainTagReplaced("b", "bold" + "</b>");
    TagFreeKept("Hello World is  and ", "<" + "b" + ">" + ("bold" + "</b>"));
    assert "Hello World" + (" is " + (" and " + "<b>bold</b>"))
      == "Hello World is  and " + ("<" + "b" + ">" + ("bold" + "</b>"));
    assert " " + ("bold" + " ") == " bold ";
  }

  lemma ExamplePunct()
    ensures ReplacePunct("Hello World is  and " + " bold ") == "Hello World is  and " + " bold "
  {
    PunctFreeKept("Hello World is  and " + " bold ");
  }

  lemma ExampleSplitTail()
    ensures SplitOnSpace("is" + "  " + ("and" + "  " + ("bold" + " " + ""))) == ["is", "and", "bold", ""]
  {
    assert SplitOnSpace("") == [""] by {
      PieceSlice("", 0, 0);
    }
    SplitAtSpace("bold", " ", "");
    SplitAtSpace("and", "  ", "bold" + " " + "");
    SplitAtSpace("is", "  ", "and" + "  " + ("bold" + " " + ""));
  }

  lemma ExampleSplit()
    ensures SplitOnSpace("Hello World is  and " + " bold ") == ["Hello", "World", "is", "and", "bold", ""]
  {
    var rest := "is" + "  " + ("and" + "  " + ("bold" + " " + ""));
    ExampleWordPieces();
    ExampleSplitTail();
    SplitAtSpace("World", " ", rest);
    SplitAtSpace("Hello", " ", "World" + " " + rest);
  }

  lemma ExampleLowered()
    ensures Lowered(["Hello", "World", "is", "and", "bold", ""]) == ["hello", "world", "is", "and", "bold", ""]
  {
    var ws := ["Hello", "World", "is", "and", "bold", ""];
    assert ToLower(ws[0]) == "hello";
    assert ToLower(ws[1]) == "world";
    assert ToLower(ws[2]) == "is";
    assert ToLower(ws[3]) == "and";
    assert ToLower(ws[4]) == "bold";
  }

  /** Double brackets go, the link goes whole, tags become spaces, and the
      trailing space left by `</b>` yields a final empty word. */
  lemma ItemWordsExample()
    ensures ItemWords("[[Hello World]] is " + "[here](http://x.com/y)" + " and <b>bold</b>")
      == ["hello", "world", "is", "and", "bold", ""]
  {
    TrimOfTrimmed("[[Hello World]] is " + "[here](http://x.com/y)" + " and <b>bold</b>");
    ExampleBrackets();
    ExampleTags();
    ExamplePunct();
    ExampleSplit();
    ExampleLowered();
  }
}
