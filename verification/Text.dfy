/** Text cleaning, key stripping and field-name normalisation, and the byte
    order of Rust strings. */
module Text {
  /** The Unicode White_Space property, which Rust's `trim` and
      `split_whitespace` use. */
  predicate IsWhitespace(c: char) {
    || '\t' <= c <= '\r'
    || c == ' '
    || c == '\U{85}'
    || c == '\U{A0}'
    || c == '\U{1680}'
    || '\U{2000}' <= c <= '\U{200A}'
    || c == '\U{2028}'
    || c == '\U{2029}'
    || c == '\U{202F}'
    || c == '\U{205F}'
    || c == '\U{3000}'
  }

  predicate HasNoWhitespace(s: string) {
    forall i :: 0 <= i < |s| ==> !IsWhitespace(s[i])
  }

  // ---------------------------------------------------------------- trimming

  function TrimStart(s: string): (r: string)
    ensures |r| <= |s|
    ensures r != [] ==> !IsWhitespace(r[0])
  {
    if s != [] && IsWhitespace(s[0]) then TrimStart(s[1..]) else s
  }

  function TrimEnd(s: string): (r: string)
    ensures r <= s
    ensures r != [] ==> !IsWhitespace(r[|r| - 1])
  {
    if s != [] && IsWhitespace(s[|s| - 1]) then TrimEnd(s[..|s| - 1]) else s
  }

  function Trim(s: string): (r: string)
    ensures r != [] ==> !IsWhitespace(r[0]) && !IsWhitespace(r[|r| - 1])
  {
    TrimEnd(TrimStart(s))
  }

  /** No whitespace at either end: exactly the strings `trim` leaves alone. */
  predicate HasCleanEnds(s: string) {
    s == [] || (!IsWhitespace(s[0]) && !IsWhitespace(s[|s| - 1]))
  }

  lemma TrimFixedPoint(s: string)
    ensures Trim(s) == s <==> HasCleanEnds(s)
  {
  }

  lemma {:induction false} TrimOfBlank(s: string)
    ensures Trim(s) == [] <==> forall i :: 0 <= i < |s| ==> IsWhitespace(s[i])
  {
    if s != [] {
      if IsWhitespace(s[0]) {
        TrimOfBlank(s[1..]);
        assert Trim(s) == Trim(s[1..]);
        assert forall i :: 0 < i < |s| ==> s[i] == s[1..][i - 1];
      } else {
        TrimEndKeepsStart(s);
      }
    }
  }

  lemma {:induction false} TrimEndKeepsStart(s: string)
    requires s != [] && !IsWhitespace(s[0])
    ensures TrimEnd(s) != []
  {
    if IsWhitespace(s[|s| - 1]) { TrimEndKeepsStart(s[..|s| - 1]); }
  }

  lemma {:induction false} TrimStartLonger(s: string, c: char)
    ensures TrimStart(s + [c]) == if TrimStart(s) == [] && IsWhitespace(c) then [] else TrimStart(s) + [c]
  {
    if s == [] {
      assert s + [c] == [c];
      assert [c][1..] == [];
    } else if IsWhitespace(s[0]) {
      assert (s + [c])[1..] == s[1..] + [c];
      TrimStartLonger(s[1..], c);
    }
  }

  /** Whitespace at either end makes no difference. */
  lemma {:induction false} TrimDropsEnds(s: string, w: char)
    requires IsWhitespace(w)
    ensures Trim([w] + s) == Trim(s) && Trim(s + [w]) == Trim(s)
  {
    assert ([w] + s)[1..] == s;
    TrimStartLonger(s, w);
    var t := TrimStart(s) + [w];
    assert t[..|t| - 1] == TrimStart(s);
  }

  // ------------------------------------------------------- splitting, joining

  /** The longest prefix without whitespace. */
  function TakeWord(s: string): (w: string)
    ensures w <= s && HasNoWhitespace(w)
    ensures |w| < |s| ==> IsWhitespace(s[|w|])
  {
    if s == [] || IsWhitespace(s[0]) then [] else [s[0]] + TakeWord(s[1..])
  }

  function SplitWhitespace(s: string): (words: seq<string>)
    ensures AreWords(words)
    decreases |s|
  {
    var t := TrimStart(s);
    if t == [] then []
    else
      var w := TakeWord(t);
      [w] + SplitWhitespace(t[|w|..])
  }

  /** Non-empty and free of whitespace, each of them. */
  predicate AreWords(words: seq<string>) {
    forall i :: 0 <= i < |words| ==> words[i] != [] && HasNoWhitespace(words[i])
  }

  function JoinWords(words: seq<string>): string {
    if words == [] then []
    else if |words| == 1 then words[0]
    else words[0] + " " + JoinWords(words[1..])
  }

  function BreakToSpace(c: char): char {
    if c == '\r' || c == '\n' then ' ' else c
  }

  function BreaksToSpaces(s: string): (r: string)
    ensures |r| == |s|
    ensures forall i :: 0 <= i < |s| ==> r[i] == BreakToSpace(s[i])
  {
    if s == [] then [] else [BreakToSpace(s[0])] + BreaksToSpaces(s[1..])
  }

  /** `clean_text`: trim, turn line breaks into spaces, collapse whitespace. */
  function CleanText(s: string): string {
    JoinWords(SplitWhitespace(BreaksToSpaces(Trim(s))))
  }

  /** What a cleaned text looks like: no whitespace at the ends, inside only
      single spaces. */
  predicate IsClean(s: string) {
    && HasCleanEnds(s)
    && forall i :: 0 < i < |s| && IsWhitespace(s[i]) ==> s[i] == ' ' && !IsWhitespace(s[i - 1])
  }

  lemma {:induction false} TakeWordOfPrefix(w: string, rest: string)
    requires HasNoWhitespace(w)
    requires rest != [] ==> IsWhitespace(rest[0])
    ensures TakeWord(w + rest) == w
  {
    if w == [] {
      assert w + rest == rest;
    } else {
      assert (w + rest)[1..] == w[1..] + rest;
      TakeWordOfPrefix(w[1..], rest);
    }
  }

  lemma {:induction false} JoinedWordsAreClean(words: seq<string>)
    requires AreWords(words)
    ensures IsClean(JoinWords(words))
    ensures words != [] ==> JoinWords(words) != []
  {
    if |words| > 1 {
      var rest := JoinWords(words[1..]);
      JoinedWordsAreClean(words[1..]);
      var s := words[0] + " " + rest;
      forall i | 0 < i < |s| && IsWhitespace(s[i])
        ensures s[i] == ' ' && !IsWhitespace(s[i - 1])
      {
        if i > |words[0]| {
          assert s[i] == rest[i - |words[0]| - 1];
        }
      }
      assert s[|s| - 1] == rest[|rest| - 1];
    }
  }

  lemma {:induction false} SplitOfJoin(words: seq<string>)
    requires AreWords(words)
    ensures SplitWhitespace(JoinWords(words)) == words
  {
    if words == [] {
    } else if |words| == 1 {
      assert words[0] + [] == words[0];
      TakeWordOfPrefix(words[0], []);
      SplitOffWord(words[0], []);
    } else {
      var tail := JoinWords(words[1..]);
      SplitOfJoin(words[1..]);
      JoinedWordsAreClean(words[1..]);
      assert (" " + tail)[1..] == tail;
      assert TrimStart(" " + tail) == tail;
      SplitAfterTrimStart(" " + tail);
      assert words[0] + " " + tail == words[0] + (" " + tail);
      SplitOffWord(words[0], " " + tail);
    }
  }

  lemma SplitOffWord(w: string, rest: string)
    requires w != [] && HasNoWhitespace(w)
    requires rest != [] ==> IsWhitespace(rest[0])
    ensures SplitWhitespace(w + rest) == [w] + SplitWhitespace(rest)
  {
    var s := w + rest;
    assert s[0] == w[0];
    TakeWordOfPrefix(w, rest);
    assert s[|w|..] == rest;
  }

  lemma SplitAfterTrimStart(s: string)
    ensures SplitWhitespace(TrimStart(s)) == SplitWhitespace(s)
  {
    assert TrimStart(TrimStart(s)) == TrimStart(s);
  }

  /** Splitting a clean text and joining the words again loses nothing. */
  lemma {:induction false} JoinOfSplit(s: string)
    requires IsClean(s)
    ensures JoinWords(SplitWhitespace(s)) == s
    decreases |s|
  {
    hide SplitWhitespace;
    if s == [] {
      SplitOfNothing();
    } else {
      var w := TakeWord(s);
      var rest := s[|w|..];
      assert s == w + rest;
      SplitOffWord(w, rest);
      if rest == [] {
        SplitOfNothing();
      } else {
        var tail := rest[1..];
        CleanTail(s, |w|);
        JoinOfSplit(tail);
        SplitAfterTrimStart(rest);
        assert SplitWhitespace(rest) == SplitWhitespace(tail);
        assert s == w + " " + tail;
      }
    }
  }

  /** After an inner space a clean text goes on with a clean, non-empty text. */
  lemma CleanTail(s: string, i: nat)
    requires IsClean(s) && 0 < i < |s| && IsWhitespace(s[i])
    ensures i + 1 < |s| && s[i] == ' ' && IsClean(s[i + 1..])
    ensures TrimStart(s[i..]) == s[i + 1..]
  {
    var tail := s[i + 1..];
    assert !IsWhitespace(s[|s| - 1]);
    assert s[i] == ' ' && !IsWhitespace(s[i + 1]);
    forall j | 0 < j < |tail| && IsWhitespace(tail[j])
      ensures tail[j] == ' ' && !IsWhitespace(tail[j - 1])
    {
      assert tail[j] == s[i + 1 + j] && tail[j - 1] == s[i + j];
    }
    assert s[i..][1..] == tail;
  }

  lemma CleanTextIsClean(s: string)
    ensures IsClean(CleanText(s))
  {
    JoinedWordsAreClean(SplitWhitespace(BreaksToSpaces(Trim(s))));
  }

  /** The fixed points of `clean_text` are exactly the texts that look clean,
      and cleaning twice is cleaning once. */
  lemma CleanTextFixedPoints(s: string)
    ensures CleanText(s) == s <==> IsClean(s)
    ensures CleanText(CleanText(s)) == CleanText(s)
  {
    CleanTextIsClean(s);
    CleanLeavesCleanText(CleanText(s));
    if IsClean(s) {
      CleanLeavesCleanText(s);
    }
  }

  lemma CleanLeavesCleanText(s: string)
    requires IsClean(s)
    ensures CleanText(s) == s
  {
    TrimFixedPoint(s);
    forall i | 0 <= i < |s| ensures BreaksToSpaces(s)[i] == s[i] {
      if i == 0 {
      } else {
        assert IsWhitespace(s[i]) ==> s[i] == ' ';
      }
    }
    assert BreaksToSpaces(s) == s;
    JoinOfSplit(s);
  }

  // ----------------------------------------------------------- what cleaning keeps

  predicate EndsInWord(s: string) {
    s != [] && !IsWhitespace(s[|s| - 1])
  }

  /** One more character: a blank adds nothing, any other goes on with the last word or
      begins a new one. */
  lemma {:induction false} SplitByChar(s: string, c: char)
    ensures IsWhitespace(c) ==> SplitWhitespace(s + [c]) == SplitWhitespace(s)
    ensures !IsWhitespace(c) && !EndsInWord(s) ==> SplitWhitespace(s + [c]) == SplitWhitespace(s) + [[c]]
    ensures !IsWhitespace(c) && EndsInWord(s) ==>
              var words := SplitWhitespace(s);
              words != [] && SplitWhitespace(s + [c]) == words[..|words| - 1] + [words[|words| - 1] + [c]]
    decreases |s|
  {
    hide SplitWhitespace, TrimStart, TakeWord, IsWhitespace;
    if s == [] {
      SplitOfNothing();
      SplitOfChar(c);
      assert s + [c] == [c];
    } else if IsWhitespace(s[0]) {
      SplitByChar(s[1..], c);
      SplitAfterBlank(s);
      SplitAfterBlank(s + [c]);
      assert (s + [c])[1..] == s[1..] + [c];
    } else {
      var w := TakeWord(s);
      SplitByCharInWord(s, w, c);
      if s[|w|..] != [] { SplitByChar(s[|w|..], c); }
    }
  }

  lemma SplitAfterBlank(s: string)
    requires s != [] && IsWhitespace(s[0])
    ensures SplitWhitespace(s) == SplitWhitespace(s[1..])
  {
    SplitAfterTrimStart(s);
    SplitAfterTrimStart(s[1..]);
  }

  /** Behind the first word it depends on the rest. */
  lemma {:induction false} SplitByCharInWord(s: string, w: string, c: char)
    requires w != [] && HasNoWhitespace(w) && w <= s && (|w| < |s| ==> IsWhitespace(s[|w|]))
    ensures SplitWhitespace(s) == [w] + SplitWhitespace(s[|w|..])
    ensures s[|w|..] != [] ==> SplitWhitespace(s + [c]) == [w] + SplitWhitespace(s[|w|..] + [c])
    ensures s[|w|..] == [] ==> SplitWhitespace(s) == [w]
    ensures s[|w|..] == [] ==> SplitWhitespace(s + [c]) == if IsWhitespace(c) then [w] else [w + [c]]
  {
    hide SplitWhitespace, TakeWord, IsWhitespace;
    var rest := s[|w|..];
    assert s == w + rest;
    SplitOffWord(w, rest);
    SplitOfNothing();
    if rest != [] {
      assert s + [c] == w + (rest + [c]);
      SplitOffWord(w, rest + [c]);
    } else if IsWhitespace(c) {
      assert s + [c] == w + [c];
      SplitOffWord(w, [c]);
      SplitOfChar(c);
    } else {
      assert s + [c] == w + [c] + [];
      SplitOffWord(w + [c], []);
    }
  }

  lemma SplitOfNothing()
    ensures SplitWhitespace([]) == []
  {
  }

  lemma SplitOfChar(c: char)
    ensures SplitWhitespace([c]) == if IsWhitespace(c) then [] else [[c]]
  {
    assert [c][1..] == [];
    if !IsWhitespace(c) {
      SplitOffWord([c], []);
      assert [c] + [] == [c];
    }
  }

  lemma {:induction false} SplitAfterTrimEnd(s: string)
    ensures SplitWhitespace(TrimEnd(s)) == SplitWhitespace(s)
  {
    if s != [] && IsWhitespace(s[|s| - 1]) {
      var n := |s| - 1;
      assert s == s[..n] + [s[n]];
      SplitByChar(s[..n], s[n]);
      SplitAfterTrimEnd(s[..n]);
    }
  }

  lemma {:induction false} SplitAfterBreaks(s: string)
    ensures SplitWhitespace(BreaksToSpaces(s)) == SplitWhitespace(s)
  {
    hide SplitWhitespace, BreaksToSpaces;
    if s == [] {
      assert BreaksToSpaces(s) == [];
    } else {
      var n := |s| - 1;
      var front, c := s[..n], s[n];
      assert s == front + [c];
      assert BreaksToSpaces(s) == BreaksToSpaces(front) + [BreakToSpace(c)];
      SplitAfterBreaks(front);
      SplitByChar(front, c);
      SplitByChar(BreaksToSpaces(front), BreakToSpace(c));
    }
  }

  /** Splitting at whitespace makes trimming and replacing line breaks before it
      unnecessary. */
  lemma CleanTextJoinsWords(s: string)
    ensures CleanText(s) == JoinWords(SplitWhitespace(s))
  {
    SplitAfterBreaks(Trim(s));
    SplitAfterTrimEnd(TrimStart(s));
    SplitAfterTrimStart(s);
  }

  lemma {:induction false} JoinLonger(words: seq<string>, w: string)
    ensures JoinWords(words + [w]) == if words == [] then w else JoinWords(words) + " " + w
  {
    if words == [] {
      assert [] + [w] == [w];
    } else {
      assert (words + [w])[1..] == words[1..] + [w];
      JoinLonger(words[1..], w);
      if |words| > 1 {
        assert JoinWords(words + [w]) == words[0] + " " + (JoinWords(words[1..]) + " " + w);
      }
    }
  }

  /** What cleaning keeps, one character after the other: whitespace adds nothing; a
      character that follows another stays next to it; one that follows whitespace is
      set off by exactly one blank from what was there before. Since every text is built
      so from the empty one, this determines `clean_text`. */
  lemma {:induction false} CleanTextByChar(s: string, c: char)
    ensures CleanText([]) == []
    ensures IsWhitespace(c) ==> CleanText(s + [c]) == CleanText(s)
    ensures !IsWhitespace(c) && s != [] && !IsWhitespace(s[|s| - 1]) ==> CleanText(s + [c]) == CleanText(s) + [c]
    ensures !IsWhitespace(c) && (s == [] || IsWhitespace(s[|s| - 1])) ==>
              CleanText(s + [c]) == if CleanText(s) == [] then [c] else CleanText(s) + " " + [c]
  {
    hide CleanText, SplitWhitespace;
    CleanLeavesCleanText([]);
    CleanTextJoinsWords(s);
    CleanTextJoinsWords(s + [c]);
    SplitByChar(s, c);
    var words := SplitWhitespace(s);
    JoinedWordsAreClean(words);
    JoinLonger(words, [c]);
    if words != [] {
      var front, last := words[..|words| - 1], words[|words| - 1];
      assert words == front + [last];
      JoinLonger(front, last);
      JoinLonger(front, last + [c]);
    }
  }

  /** What one more character adds to a cleaned text. */
  ghost predicate GrowsByChar(f: string -> string, s: string, c: char) {
    f(s + [c]) == if IsWhitespace(c) then f(s)
                  else if EndsInWord(s) || f(s) == [] then f(s) + [c] else f(s) + " " + [c]
  }

  /** No other function does that. */
  lemma {:induction false} CleanTextDetermined(f: string -> string, s: string)
    requires f([]) == [] && forall t, c :: GrowsByChar(f, t, c)
    ensures f(s) == CleanText(s)
  {
    hide CleanText;
    CleanTextByChar([], ' ');
    if s != [] {
      var front, c := s[..|s| - 1], s[|s| - 1];
      assert s == front + [c];
      CleanTextDetermined(f, front);
      CleanTextByChar(front, c);
      assert GrowsByChar(f, front, c);
    }
  }

  /** The characters of a text that are no whitespace, in their order. */
  function NonBlanks(s: string): string {
    if s == [] then []
    else NonBlanks(s[..|s| - 1]) + if IsWhitespace(s[|s| - 1]) then [] else [s[|s| - 1]]
  }

  lemma NonBlanksByChar(s: string, c: char)
    ensures NonBlanks(s + [c]) == NonBlanks(s) + if IsWhitespace(c) then [] else [c]
  {
    assert (s + [c])[..|s|] == s;
  }

  lemma {:induction false} NonBlanksInParts(a: string, b: string)
    ensures NonBlanks(a + b) == NonBlanks(a) + NonBlanks(b)
  {
    if b == [] {
      assert a + b == a;
    } else {
      var n := |b| - 1;
      assert (a + b)[..|a| + n] == a + b[..n];
      NonBlanksInParts(a, b[..n]);
    }
  }

  /** Cleaning loses no character but whitespace, adds none, and keeps their order. */
  lemma {:induction false} CleanTextKeepsCharacters(s: string)
    ensures NonBlanks(CleanText(s)) == NonBlanks(s)
  {
    hide CleanText, NonBlanks;
    if s == [] {
      CleanTextByChar([], ' ');
    } else {
      var n := |s| - 1;
      var front, c := s[..n], s[n];
      assert s == front + [c];
      CleanTextByChar(front, c);
      CleanTextKeepsCharacters(front);
      NonBlanksByChar(front, c);
      NonBlanksByChar(CleanText(front), c);
      NonBlanksByChar(CleanText(front), ' ');
      NonBlanksByChar(CleanText(front) + " ", c);
      NonBlanksByChar([], c);
      assert [] + [c] == [c];
    }
  }

  // ---------------------------------------------------------- key characters

  /** The characters that business keys and field names never keep. */
  predicate IsKeyFiller(c: char) {
    c == '\r' || c == '\n' || c == ' ' || c == '\U{3000}'
  }

  function DropFillers(s: string): (r: string)
    ensures |r| <= |s|
    ensures forall i :: 0 <= i < |r| ==> !IsKeyFiller(r[i]) && r[i] in s
    ensures (forall i :: 0 <= i < |s| ==> !IsKeyFiller(s[i])) ==> r == s
  {
    if s == [] then []
    else if IsKeyFiller(s[0]) then DropFillers(s[1..])
    else [s[0]] + DropFillers(s[1..])
  }

  /** The text part of `value_to_key_string`. */
  function KeyText(s: string): string {
    DropFillers(Trim(s))
  }

  /** On cleaned text, a key keeps no whitespace at all, so a key written back
      as text is read as the same key. */
  lemma KeyTextOfClean(s: string)
    requires IsClean(s)
    ensures HasNoWhitespace(KeyText(s))
    ensures IsClean(KeyText(s)) && CleanText(KeyText(s)) == KeyText(s)
    ensures KeyText(KeyText(s)) == KeyText(s)
  {
    TrimFixedPoint(s);
    var k := KeyText(s);
    forall i | 0 <= i < |k| ensures !IsWhitespace(k[i]) {
      assert k[i] in s && !IsKeyFiller(k[i]);
      var j :| 0 <= j < |s| && s[j] == k[i];
      assert IsKeyFiller(' ');
    }
    CleanLeavesCleanText(k);
    TrimFixedPoint(k);
    assert forall i :: 0 <= i < |k| ==> !IsKeyFiller(k[i]);
  }

  lemma {:induction false} DropFillersInParts(a: string, b: string)
    ensures DropFillers(a + b) == DropFillers(a) + DropFillers(b)
  {
    if a == [] {
      assert a + b == b;
    } else {
      assert (a + b)[1..] == a[1..] + b;
      DropFillersInParts(a[1..], b);
    }
  }

  lemma DropFillersOfChar(c: char)
    ensures DropFillers([c]) == if c in "\r\n \U{3000}" then [] else [c]
  {
    assert [c][1..] == [];
  }

  lemma {:induction false} DropFillersOfClean(s: string)
    requires forall i :: 0 <= i < |s| && IsWhitespace(s[i]) ==> s[i] == ' '
    ensures DropFillers(s) == NonBlanks(s)
  {
    if s != [] {
      var n := |s| - 1;
      assert s == s[..n] + [s[n]];
      DropFillersOfClean(s[..n]);
      DropFillersInParts(s[..n], [s[n]]);
      DropFillersOfChar(s[n]);
    }
  }

  /** The key in a text is exactly its characters without the whitespace. */
  lemma {:induction false} KeyTextOfText(s: string)
    ensures KeyText(CleanText(s)) == NonBlanks(s)
  {
    hide CleanText, NonBlanks;
    CleanTextKeepsCharacters(s);
    CleanTextIsClean(s);
    TrimFixedPoint(CleanText(s));
    DropFillersOfClean(CleanText(s));
  }

  // ------------------------------------------------------------- field names

  function LowerChar(c: char): char {
    if 'A' <= c <= 'Z' then (c as int + 32) as char else c
  }

  function Lower(s: string): (r: string)
    ensures |r| == |s|
    ensures forall i :: 0 <= i < |s| ==> r[i] == LowerChar(s[i])
  {
    if s == [] then [] else [LowerChar(s[0])] + Lower(s[1..])
  }

  /** `normalize_field_name`: how two spellings of a column are compared. */
  function NormalizeFieldName(s: string): string {
    Lower(DropFillers(Trim(s)))
  }

  /** A normalised name is its own normal form. */
  lemma NormalizeFieldNameIdempotent(s: string)
    ensures NormalizeFieldName(NormalizeFieldName(s)) == NormalizeFieldName(s)
  {
    var t := Trim(s);
    DropFillersKeepsEnds(t);
    LowerOfStripped(DropFillers(t));
  }

  lemma LowerOfStripped(d: string)
    requires HasCleanEnds(d)
    requires forall i :: 0 <= i < |d| ==> !IsKeyFiller(d[i])
    ensures NormalizeFieldName(Lower(d)) == Lower(d)
  {
    var n := Lower(d);
    forall i | 0 <= i < |n| ensures !IsKeyFiller(n[i]) {
      LowerCharKeepsClass(d[i]);
    }
    if d != [] {
      LowerCharKeepsClass(d[0]);
      LowerCharKeepsClass(d[|d| - 1]);
    }
    assert HasCleanEnds(n);
    LowerTwice(d);
    StrippedNameIsNormal(n);
  }

  lemma StrippedNameIsNormal(n: string)
    requires HasCleanEnds(n) && Lower(n) == n
    requires forall i :: 0 <= i < |n| ==> !IsKeyFiller(n[i])
    ensures NormalizeFieldName(n) == n
  {
    TrimFixedPoint(n);
    assert DropFillers(n) == n;
  }

  lemma LowerCharKeepsClass(c: char)
    ensures IsKeyFiller(LowerChar(c)) == IsKeyFiller(c)
    ensures IsWhitespace(LowerChar(c)) == IsWhitespace(c)
  {
  }

  lemma LowerTwice(s: string)
    ensures Lower(Lower(s)) == Lower(s)
  {
    if s != [] {
      LowerTwice(s[1..]);
    }
  }

  lemma {:induction false} DropFillersKeepsEnds(s: string)
    requires s != [] ==> !IsWhitespace(s[|s| - 1])
    ensures s != [] ==> DropFillers(s) != [] && DropFillers(s)[|DropFillers(s)| - 1] == s[|s| - 1]
    ensures s != [] && !IsWhitespace(s[0]) ==> DropFillers(s)[0] == s[0]
  {
    if |s| > 1 {
      DropFillersKeepsEnds(s[1..]);
    }
  }

  /** What becomes of a name: whitespace at the ends and fillers anywhere make no
      difference; apart from them every character stays, capitals as small letters. */
  lemma {:induction false} NormalizeFieldNameKeeps(a: string, c: char, b: string)
    ensures IsWhitespace(c) ==> NormalizeFieldName([c] + a) == NormalizeFieldName(a) == NormalizeFieldName(a + [c])
    ensures EndsInWord(b) && a != [] && !IsWhitespace(a[0]) && c in "\r\n \U{3000}" ==>
              NormalizeFieldName(a + [c] + b) == NormalizeFieldName(a + b)
    ensures HasCleanEnds(a) && (forall i :: 0 <= i < |a| ==> a[i] !in "\r\n \U{3000}") ==>
              && |NormalizeFieldName(a)| == |a|
              && forall i :: 0 <= i < |a| ==>
                   NormalizeFieldName(a)[i]
                   == if 'A' <= a[i] <= 'Z' then (a[i] as int - 'A' as int + 'a' as int) as char else a[i]
  {
    hide Lower, Trim, DropFillers;
    if IsWhitespace(c) { TrimDropsEnds(a, c); }
    if EndsInWord(b) && a != [] && !IsWhitespace(a[0]) && c in "\r\n \U{3000}" { FillerInside(a, c, b); }
    if HasCleanEnds(a) && (forall i :: 0 <= i < |a| ==> a[i] !in "\r\n \U{3000}") {
      TrimFixedPoint(a);
      assert forall i :: 0 <= i < |a| ==> !IsKeyFiller(a[i]);
    }
  }

  lemma {:induction false} FillerInside(a: string, c: char, b: string)
    requires EndsInWord(b) && a != [] && !IsWhitespace(a[0]) && c in "\r\n \U{3000}"
    ensures DropFillers(Trim(a + [c] + b)) == DropFillers(Trim(a + b))
  {
    hide Trim, DropFillers;
    TrimFixedPoint(a + [c] + b);
    TrimFixedPoint(a + b);
    DropFillersInParts(a + [c], b);
    DropFillersInParts(a, [c]);
    DropFillersInParts(a, b);
    DropFillersOfChar(c);
  }

  // ------------------------------------------------------------ string order

  /** Rust compares strings by their UTF-8 bytes, which is code point order. */
  predicate LessEq(a: string, b: string) {
    a == [] || (b != [] && (a[0] < b[0] || (a[0] == b[0] && LessEq(a[1..], b[1..]))))
  }

  lemma {:induction false} LessEqReflexive(a: string)
    ensures LessEq(a, a)
  {
    if a != [] { LessEqReflexive(a[1..]); }
  }

  lemma {:induction false} LessEqAntisymmetric(a: string, b: string)
    requires LessEq(a, b) && LessEq(b, a)
    ensures a == b
  {
    if a != [] && b != [] {
      LessEqAntisymmetric(a[1..], b[1..]);
      assert a == [a[0]] + a[1..] && b == [b[0]] + b[1..];
    }
  }

  lemma {:induction false} LessEqTransitive(a: string, b: string, c: string)
    requires LessEq(a, b) && LessEq(b, c)
    ensures LessEq(a, c)
  {
    if a != [] && a[0] == b[0] == c[0] {
      LessEqTransitive(a[1..], b[1..], c[1..]);
    }
  }

  lemma {:induction false} LessEqTotal(a: string, b: string)
    ensures LessEq(a, b) || LessEq(b, a)
  {
    if a != [] && b != [] && a[0] == b[0] { LessEqTotal(a[1..], b[1..]); }
  }

  /** The first different character decides, and a text comes before its continuations. */
  lemma {:induction false} FirstDifferenceDecides(p: string, x: char, a: string, y: char, b: string)
    ensures LessEq(p + [x] + a, p + [y] + b) ==> x <= y
    ensures x < y ==> LessEq(p + [x] + a, p + [y] + b)
    ensures LessEq(p, p + [x] + a) && !LessEq(p + [x] + a, p)
  {
    var s, t := p + [x] + a, p + [y] + b;
    assert s == p + ([x] + a) && t == p + ([y] + b);
    if p == [] {
    } else {
      FirstDifferenceDecides(p[1..], x, a, y, b);
      assert s[1..] == p[1..] + [x] + a && t[1..] == p[1..] + [y] + b;
    }
  }

  predicate IsLeast(name: string, names: set<string>) {
    name in names && forall other :: other in names ==> LessEq(name, other)
  }

  lemma {:induction false} LeastExists(names: set<string>)
    requires names != {}
    ensures exists name :: IsLeast(name, names)
    decreases |names|
  {
    var some :| some in names;
    var rest := names - {some};
    LessEqReflexive(some);
    if rest == {} {
      assert names == {some};
      assert IsLeast(some, names);
    } else {
      LeastExists(rest);
      var least :| IsLeast(least, rest);
      LessEqTotal(some, least);
      var name := if LessEq(some, least) then some else least;
      forall other | other in names ensures LessEq(name, other) {
        if other in rest && name == some {
          LessEqTransitive(some, least, other);
        }
      }
      assert IsLeast(name, names);
    }
  }

  /** The first name in map order. */
  function Least(names: set<string>): (name: string)
    requires names != {}
    ensures IsLeast(name, names)
  {
    LeastExists(names);
    LeastUnique(names);
    var name :| IsLeast(name, names);
    name
  }

  lemma LeastUnique(names: set<string>)
    ensures forall a, b :: IsLeast(a, names) && IsLeast(b, names) ==> a == b
  {
    forall a, b | IsLeast(a, names) && IsLeast(b, names) ensures a == b {
      LessEqAntisymmetric(a, b);
    }
  }
}
