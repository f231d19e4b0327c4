/** The header list parser of pkg/appsrv/cors.go. */
module HeaderList {
  import opened Basics

  predicate IsLower(b: char) { 'a' <= b <= 'z' }
  predicate IsUpper(b: char) { 'A' <= b <= 'Z' }
  predicate IsLetter(b: char) { IsLower(b) || IsUpper(b) }
  predicate IsMark(b: char) { b == '-' || b == '_' }
  predicate IsDigit(b: char) { '0' <= b <= '9' }
  predicate IsSeparator(b: char) { b == ' ' || b == ',' }

  /** The character a header gets for `b`: at a word start in upper case, else in lower case. */
  function Cased(b: char, upper: bool): char {
    if IsLower(b) && upper then (b as int - 32) as char
    else if IsUpper(b) && !upper then (b as int + 32) as char
    else b
  }

  predicate IsHeaderChar(b: char) {
    IsLower(b) || IsUpper(b) || IsMark(b) || IsDigit(b)
  }

  /** What a header gets of `b`. */
  function Kept(b: char, upper: bool): string {
    if IsHeaderChar(b) then [Cased(b, upper)] else []
  }

  // ---- The meaning of one word ---------------------------------------------------------

  /** What is kept of a word; `upper` says whether its first letter is in upper case. */
  function Canonical(word: string, upper: bool): string {
    if word == [] then []
    else Kept(word[0], upper) + Canonical(word[1..], IsMark(word[0]))
  }

  /** The words between separators; empty words included. */
  function Words(s: string): (r: seq<string>)
    ensures r != []
  {
    if s == [] then [[]]
    else if IsSeparator(s[0]) then [[]] + Words(s[1..])
    else [[s[0]] + Words(s[1..])[0]] + Words(s[1..])[1..]
  }

  function Flush(h: string): seq<string> {
    if h == [] then [] else [h]
  }

  /**
   The headers of a list of words, of which the first continues `h`.  A word of which
   nothing is kept yields no header, and the case of its last character carries over.
   */
  function Headers(h: string, upper: bool, words: seq<string>): seq<string>
    requires words != []
    decreases |words|
  {
    var header := h + Canonical(words[0], upper);
    Flush(header) + if |words| == 1 then [] else Headers([], header != [] || (words[0] == [] && upper), words[1..])
  }

  lemma Separate(s: string, h: string, upper: bool)
    requires s != [] && IsSeparator(s[0])
    ensures Headers(h, upper, Words(s)) == Flush(h) + Headers([], h != [] || upper, Words(s[1..]))
  {
    assert Words(s)[1..] == Words(s[1..]);
    assert h + [] == h;
  }

  lemma Extend(s: string, h: string, upper: bool)
    requires s != [] && !IsSeparator(s[0])
    ensures Headers(h, upper, Words(s)) == Headers(h + Kept(s[0], upper), IsMark(s[0]), Words(s[1..]))
  {
    var piece := Kept(s[0], upper);
    var words, rest := Words(s), Words(s[1..]);
    assert words[0][1..] == rest[0] && words[1..] == rest[1..];
    Assoc(h, piece, Canonical(rest[0], IsMark(s[0])));
  }

  /** One turn of the loop: a header is flushed at a separator and at the end. */
  lemma Turn(headers: seq<string>, rest: string, h: string, upper: bool)
    requires rest != []
    ensures var h' := h + Kept(rest[0], upper);
      headers + Headers(h, upper, Words(rest)) ==
        if IsSeparator(rest[0]) || |rest| == 1
        then (headers + Flush(h')) + Headers([], h' != [] || upper, Words(rest[1..]))
        else headers + Headers(h', IsMark(rest[0]), Words(rest[1..]))
  {
    var h' := h + Kept(rest[0], upper);
    if IsSeparator(rest[0]) {
      assert h' == h;
      Separate(rest, h, upper);
    } else {
      Extend(rest, h, upper);
      if |rest| == 1 {
        AtEnd(h', IsMark(rest[0]));
        AtEnd([], h' != [] || upper);
      }
    }
    Assoc(headers, Flush(h'), Headers([], h' != [] || upper, Words(rest[1..])));
  }

  lemma AtEnd(h: string, upper: bool)
    ensures Headers(h, upper, Words([])) == Flush(h)
  {
    assert h + [] == h;
  }

  /** The body of the loop, for one character. */
  method Take(headers: seq<string>, h: string, upper: bool, b: char, last: bool)
    returns (headers': seq<string>, h': string, upper': bool)
    ensures var word := h + Kept(b, upper);
      if IsSeparator(b) || last
      then headers' == headers + Flush(word) && h' == [] && upper' == (word != [] || upper)
      else headers' == headers && h' == word && upper' == IsMark(b)
  {
    headers', h', upper' := headers, h, upper;
    if 'a' <= b <= 'z' {
      if upper {
        h' := h' + [(b as int - 32) as char];
      } else {
        h' := h' + [b];
      }
    } else if 'A' <= b <= 'Z' {
      if !upper {
        h' := h' + [(b as int + 32) as char];
      } else {
        h' := h' + [b];
      }
    } else if b == '-' || b == '_' || '0' <= b <= '9' {
      h' := h' + [b];
    }
    assert h' == h + Kept(b, upper);

    if b == ' ' || b == ',' || last {
      if |h'| > 0 {
        headers' := headers' + [h'];
        h' := [];
        upper' := true;
      }
    } else {
      upper' := b == '-' || b == '_';
    }
  }

  /** parseHeaderList, on any string. */
  method ParseHeaderList(headerList: string) returns (headers: seq<string>)
    ensures headers == Headers([], true, Words(headerList))
  {
    var l, h, upper := |headerList|, "", true;
    headers := [];
    ghost var all := Headers([], true, Words(headerList));
    assert headerList[0..] == headerList;
    for i := 0 to l
      invariant i == l ==> h == []
      invariant all == headers + Headers(h, upper, Words(headerList[i..]))
    {
      ghost var rest := headerList[i..];
      assert rest[0] == headerList[i] && rest[1..] == headerList[i + 1..];
      Turn(headers, rest, h, upper);
      headers, h, upper := Take(headers, h, upper, headerList[i], i == l - 1);
    }
    AtEnd([], upper);
  }

  // ---- What is kept, by character ranges ----------------------------------------------------

  predicate InHeader(b: char) {
    'a' <= b <= 'z' || 'A' <= b <= 'Z' || '0' <= b <= '9' || b == '-' || b == '_'
  }

  /** A word without the characters that no header has. */
  function Filtered(word: string): string {
    if word == [] then [] else (if InHeader(word[0]) then [word[0]] else []) + Filtered(word[1..])
  }

  function Fold(c: char): char {
    if 'A' <= c <= 'Z' then (c as int + 32) as char else c
  }

  /** The text without regard to case. */
  function Folded(s: string): string {
    if s == [] then [] else [Fold(s[0])] + Folded(s[1..])
  }

  lemma FoldedCons(c: char, rest: string)
    ensures Folded([c] + rest) == [Fold(c)] + Folded(rest)
  {
    assert ([c] + rest)[1..] == rest;
  }

  /** Of a word exactly these characters are kept, in order; only their case may change. */
  lemma {:induction false} KeepsFiltered(word: string, upper: bool)
    ensures Folded(Canonical(word, upper)) == Folded(Filtered(word))
    ensures forall i | 0 <= i < |Canonical(word, upper)| :: InHeader(Canonical(word, upper)[i])
  {
    if word != [] {
      var rest := Canonical(word[1..], IsMark(word[0]));
      KeepsFiltered(word[1..], IsMark(word[0]));
      if InHeader(word[0]) {
        FoldedCons(Cased(word[0], upper), rest);
        FoldedCons(word[0], Filtered(word[1..]));
        assert Fold(Cased(word[0], upper)) == Fold(word[0]);
      } else {
        assert Canonical(word, upper) == rest && Filtered(word) == Filtered(word[1..]);
      }
    }
  }

  // ---- Split, drop empties, canonicalise ----------------------------------------------------

  predicate IsWord(w: string) {
    forall i | 0 <= i < |w| :: IsHeaderChar(w[i])
  }

  predicate OnAlphabet(s: string) {
    forall i | 0 <= i < |s| :: IsHeaderChar(s[i]) || IsSeparator(s[i])
  }

  ghost predicate AllWords(words: seq<string>) {
    forall i | 0 <= i < |words| :: IsWord(words[i])
  }

  /** Words is the split at separators: one word without any, ... */
  lemma {:induction false} OneWord(w: string)
    requires IsWord(w)
    ensures Words(w) == [w]
  {
    if w != [] {
      OneWord(w[1..]);
      assert [w[0]] + w[1..] == w;
    }
  }

  /** ... and a word cut off at each separator. */
  lemma {:induction false} CutWord(w: string, sep: char, rest: string)
    requires IsWord(w) && IsSeparator(sep)
    ensures Words(w + [sep] + rest) == [w] + Words(rest)
  {
    var s := w + [sep] + rest;
    if w == [] {
      assert s[1..] == rest;
    } else {
      CutWord(w[1..], sep, rest);
      assert s[1..] == w[1..] + [sep] + rest;
      assert [w[0]] + w[1..] == w;
      assert Words(s[1..])[1..] == Words(rest);
    }
  }

  lemma {:induction false} WordsAreWords(s: string)
    requires OnAlphabet(s)
    ensures AllWords(Words(s))
  {
    if s != [] { WordsAreWords(s[1..]); }
  }

  /** A letter is in upper case at the start of a word and after - or _, else in lower case; nothing else changes. */
  lemma {:induction false} CanonicalAt(w: string, upper: bool, k: nat)
    requires IsWord(w) && k < |w|
    ensures |Canonical(w, upper)| == |w|
    ensures Canonical(w, upper)[k] == Cased(w[k], if k == 0 then upper else IsMark(w[k - 1]))
  {
    if |w| > 1 {
      CanonicalAt(w[1..], IsMark(w[0]), if k > 0 then k - 1 else 0);
    }
  }

  function CanonicalWords(words: seq<string>): seq<string> {
    if words == [] then [] else Flush(Canonical(words[0], true)) + CanonicalWords(words[1..])
  }

  lemma {:induction false} HeadersOfWords(words: seq<string>)
    requires words != [] && AllWords(words)
    ensures Headers([], true, words) == CanonicalWords(words)
  {
    var w := words[0];
    if w != [] { CanonicalAt(w, true, 0); }
    assert [] + Canonical(w, true) == Canonical(w, true);
    if |words| > 1 { HeadersOfWords(words[1..]); }
  }

  /** On letters, digits, -, _, space and comma the parser splits, drops empties and canonicalises case. */
  lemma ParsesByWords(s: string)
    requires OnAlphabet(s)
    ensures Headers([], true, Words(s)) == CanonicalWords(Words(s))
  {
    WordsAreWords(s);
    HeadersOfWords(Words(s));
  }

  /** No word that starts with a letter comes right after one of which nothing was kept; empty words do not count. */
  predicate Carried(words: seq<string>, upper: bool)
    requires words != []
    decreases |words|
  {
    && (words[0] != [] && IsLetter(words[0][0]) ==> upper)
    && (|words| > 1 ==> Carried(words[1..], Canonical(words[0], upper) != [] || (words[0] == [] && upper)))
  }

  lemma FirstCase(w: string, upper: bool)
    ensures Canonical(w, upper) == Canonical(w, true) <==> w == [] || !IsLetter(w[0]) || upper
    ensures Canonical(w, upper) == [] <==> Canonical(w, true) == []
  {
    if w != [] && IsLetter(w[0]) {
      assert Canonical(w, upper)[0] == Cased(w[0], upper) && Canonical(w, true)[0] == Cased(w[0], true);
    }
  }

  lemma SameFlush(a: string, b: string, x: seq<string>, y: seq<string>)
    requires a == [] <==> b == []
    ensures Flush(a) + x == Flush(b) + y <==> a == b && x == y
  {
    var p, q := Flush(a) + x, Flush(b) + y;
    assert p[|Flush(a)|..] == x && q[|Flush(b)|..] == y;
    if a != [] { assert p[0] == a && q[0] == b; }
  }

  lemma {:induction false} HeadersIffCarried(words: seq<string>, upper: bool)
    requires words != []
    ensures Headers([], upper, words) == CanonicalWords(words) <==> Carried(words, upper)
    decreases |words|
  {
    var h, plain := Canonical(words[0], upper), Canonical(words[0], true);
    var next := h != [] || (words[0] == [] && upper);
    var rest := if |words| == 1 then [] else Headers([], next, words[1..]);
    if |words| > 1 { HeadersIffCarried(words[1..], next); }
    FirstCase(words[0], upper);
    assert [] + h == h;
    SameFlush(h, plain, rest, CanonicalWords(words[1..]));
  }

  /** For every string: the parser splits, drops empties and canonicalises case iff nothing carries over between words. */
  lemma ParsesByWordsIff(s: string)
    ensures Headers([], true, Words(s)) == CanonicalWords(Words(s)) <==> Carried(Words(s), true)
  {
    HeadersIffCarried(Words(s), true);
  }

  lemma CarriedWords()
    ensures Words(":,a") == [":", "a"]
  {
    OneWord("a");
    var s := ":,a";
    assert s[1..] == ",a" && s[1..][1..] == "a";
    assert Words(s[1..]) == [[], "a"] && [':'] + [] == ":";
  }

  /** ":,a" is parsed as "a", not "A". */
  lemma CarriedExample()
    ensures Words(":,a") == [":", "a"] && Headers([], true, [":", "a"]) == ["a"]
  {
    CarriedWords();
    assert [":", "a"][1..] == ["a"] && Canonical(":", true) == [];
    assert Canonical("a", false) == "a" && [] + "a" == "a";
  }

  // ---- Joining and parsing again ---------------------------------------------------------------

  function Join(headers: seq<string>): string {
    if headers == [] then []
    else if |headers| == 1 then headers[0]
    else headers[0] + [','] + ([' '] + Join(headers[1..]))
  }

  /** Headers as the parser makes them: not empty, of header characters. */
  ghost predicate AllHeaders(hs: seq<string>) {
    forall i | 0 <= i < |hs| :: hs[i] != [] && IsWord(hs[i])
  }

  function Recased(hs: seq<string>): seq<string> {
    if hs == [] then [] else [Canonical(hs[0], true)] + Recased(hs[1..])
  }

  lemma SkipEmpty(words: seq<string>)
    requires |words| > 1 && words[0] == []
    ensures Headers([], true, words) == Headers([], true, words[1..])
  {
  }

  lemma FirstHeader(h: string, rest: string)
    requires h != [] && IsWord(h)
    ensures Headers([], true, Words(h + [','] + ([' '] + rest))) == [Canonical(h, true)] + Headers([], true, Words(rest))
  {
    CutWord(h, ',', [' '] + rest);
    CutWord([], ' ', rest);
    assert [] + [' '] + rest == [' '] + rest;
    var words := Words([' '] + rest);
    assert words == [[]] + Words(rest) && words[1..] == Words(rest);
    SkipEmpty(words);
    CanonicalAt(h, true, 0);
    assert ([h] + words)[1..] == words && [] + Canonical(h, true) == Canonical(h, true);
  }

  /** Parsing a joined list only changes the case of its headers. */
  lemma {:induction false} ParseOfJoin(hs: seq<string>)
    requires AllHeaders(hs)
    ensures Headers([], true, Words(Join(hs))) == Recased(hs)
  {
    if hs == [] {
      AtEnd([], true);
    } else if |hs| == 1 {
      OneWord(hs[0]);
      CanonicalAt(hs[0], true, 0);
      assert [] + Canonical(hs[0], true) == Canonical(hs[0], true);
    } else {
      ParseOfJoin(hs[1..]);
      FirstHeader(hs[0], Join(hs[1..]));
    }
  }

  lemma {:induction false} CanonicalIsWord(w: string, upper: bool)
    ensures IsWord(Canonical(w, upper))
  {
    if w != [] { CanonicalIsWord(w[1..], IsMark(w[0])); }
  }

  lemma {:induction false} ParsedAreHeaders(words: seq<string>, upper: bool)
    requires words != []
    ensures AllHeaders(Headers([], upper, words))
    decreases |words|
  {
    var h := Canonical(words[0], upper);
    CanonicalIsWord(words[0], upper);
    assert [] + h == h;
    if |words| > 1 { ParsedAreHeaders(words[1..], h != [] || (words[0] == [] && upper)); }
  }

  // ---- When parsing again changes nothing --------------------------------------------------------

  /**
   Wherever the kept text is at its start or after a mark (`start`), the scanner expects an upper-case
   letter (`upper`).  It does not if a character that is not kept came in between.
   */
  predicate Placed(word: string, upper: bool, start: bool) {
    word == [] ||
    (&& (IsLetter(word[0]) && start ==> upper)
     && Placed(word[1..], IsMark(word[0]), if IsHeaderChar(word[0]) then IsMark(word[0]) else start))
  }

  predicate AllPlaced(words: seq<string>, upper: bool)
    requires words != []
    decreases |words|
  {
    && Placed(words[0], upper, true)
    && (|words| > 1 ==> AllPlaced(words[1..], Canonical(words[0], upper) != [] || (words[0] == [] && upper)))
  }

  lemma {:induction false} CanonicalAgain(w: string, upper: bool, start: bool)
    requires upper ==> start
    ensures Canonical(Canonical(w, upper), start) == Canonical(w, upper) <==> Placed(w, upper, start)
  {
    if w != [] {
      var b, rest := w[0], Canonical(w[1..], IsMark(w[0]));
      if IsHeaderChar(b) {
        CanonicalAgain(w[1..], IsMark(b), IsMark(b));
        AgainCons(Cased(b, upper), start, rest);
      } else {
        CanonicalAgain(w[1..], false, start);
        assert Canonical(w, upper) == rest;
      }
    }
  }

  lemma AgainCons(c: char, start: bool, rest: string)
    requires IsHeaderChar(c)
    ensures Canonical([c] + rest, start) == [c] + rest <==> Cased(c, start) == c && Canonical(rest, IsMark(c)) == rest
  {
    assert ([c] + rest)[1..] == rest;
    var again := Canonical([c] + rest, start);
    assert again == [Cased(c, start)] + Canonical(rest, IsMark(c));
    assert again[0] == Cased(c, start) && again[1..] == Canonical(rest, IsMark(c));
  }

  lemma {:induction false} RecasedIffPlaced(words: seq<string>, upper: bool)
    requires words != []
    ensures Recased(Headers([], upper, words)) == Headers([], upper, words) <==> AllPlaced(words, upper)
    decreases |words|
  {
    var h := Canonical(words[0], upper);
    var next := h != [] || (words[0] == [] && upper);
    var rest := if |words| == 1 then [] else Headers([], next, words[1..]);
    if |words| > 1 { RecasedIffPlaced(words[1..], next); }
    CanonicalAgain(words[0], upper, true);
    assert [] + h == h;
    assert Headers([], upper, words) == Flush(h) + rest;
    if h == [] { assert Flush(h) + rest == rest; } else { RecasedCons(h, rest); }
  }

  lemma RecasedCons(h: string, rest: seq<string>)
    ensures Recased([h] + rest) == [h] + rest <==> Canonical(h, true) == h && Recased(rest) == rest
  {
    assert ([h] + rest)[1..] == rest;
    var all := Recased([h] + rest);
    assert all[0] == Canonical(h, true) && all[1..] == Recased(rest);
  }

  /**
   For every string: parsing, joining with ", " and parsing again changes nothing iff no letter that
   starts a header, or follows a mark in it, has a character that is not kept before it.
   */
  lemma FixedPointIff(s: string)
    ensures var hs := Headers([], true, Words(s));
            Headers([], true, Words(Join(hs))) == hs <==> AllPlaced(Words(s), true)
  {
    ParsedAreHeaders(Words(s), true);
    ParseOfJoin(Headers([], true, Words(s)));
    RecasedIffPlaced(Words(s), true);
  }

  lemma {:induction false} WordPlaced(w: string, upper: bool)
    requires IsWord(w)
    ensures Placed(w, upper, upper)
  {
    if w != [] { WordPlaced(w[1..], IsMark(w[0])); }
  }

  lemma {:induction false} WordsPlaced(words: seq<string>)
    requires words != [] && AllWords(words)
    ensures AllPlaced(words, true)
  {
    WordPlaced(words[0], true);
    if words[0] != [] { CanonicalAt(words[0], true, 0); }
    if |words| > 1 { WordsPlaced(words[1..]); }
  }

  /** On letters, digits, -, _, space and comma it never changes anything. */
  lemma FixedPoint(s: string)
    requires OnAlphabet(s)
    ensures var hs := Headers([], true, Words(s)); Headers([], true, Words(Join(hs))) == hs
  {
    WordsAreWords(s);
    WordsPlaced(Words(s));
    FixedPointIff(s);
  }

  /** "!a" is parsed as "a", which is parsed as "A". */
  lemma NotFixedExample()
    ensures Headers([], true, Words("!a")) == ["a"] && Headers([], true, Words(Join(["a"]))) == ["A"]
  {
    var s := "!a";
    OneWord("a");
    assert s[1..] == "a" && ['!'] + "a" == s;
    assert Words(s) == ["!a"];
    assert Canonical("a", false) == "a" && Canonical(s, true) == [] + "a" && Canonical("a", true) == "A";
    assert [] + "a" == "a" && [] + "A" == "A";
  }
}
