/** The message templates of pkg/httperrors/errors.go. */
module MsgTemplate {
  import opened Basics

  const VERBS := "vTtbcdoqxXUeEfFgGsp"

  /** The pieces of a format string, read with one character of lookahead. */
  datatype Token =
    | Plain(c: char)
    | Percent           // %%
    | Verb(c: char)     // % and a simple verb
    | Odd(c: char)      // % and any other character
    | Trailing          // % at the very end

  function Tokens(msg: string): seq<Token> {
    if msg == [] then []
    else if msg[0] != '%' then [Plain(msg[0])] + Tokens(msg[1..])
    else if |msg| == 1 then [Trailing]
    else [Paired(msg[1])] + Tokens(msg[2..])
  }

  function Paired(c: char): Token {
    if c == '%' then Percent else if c in VERBS then Verb(c) else Odd(c)
  }

  function Spelling(t: Token): string {
    match t
    case Plain(c) => [c]
    case Percent => "%%"
    case Verb(c) => ['%', c]
    case Odd(c) => ['%', c]
    case Trailing => "%"
  }

  function Text(toks: seq<Token>): string {
    if toks == [] then [] else Spelling(toks[0]) + Text(toks[1..])
  }

  predicate IsNumber(s: string) {
    s != [] && forall i | 0 <= i < |s| :: '0' <= s[i] <= '9'
  }

  function Digits(n: nat): (s: string)
    ensures IsNumber(s)
  {
    var last := [('0' as int + n % 10) as char];
    if n < 10 then last else Digits(n / 10) + last
  }

  /** What a token becomes in the template, when `index` verbs came before it. */
  function Piece(t: Token, index: nat): string {
    match t
    case Plain(c) => [c]
    case Percent => "%"
    case Verb(_) => "{" + Digits(index) + "}"
    case Odd(c) => ['%', c]
    case Trailing => "%"
  }

  function Template(toks: seq<Token>, index: nat): string {
    if toks == [] then []
    else Piece(toks[0], index) + Template(toks[1..], if toks[0].Verb? then index + 1 else index)
  }

  // ---- The scanner -----------------------------------------------------------------

  lemma FirstPlain(rest: string, index: nat, temp: string)
    requires rest != [] && (rest[0] != '%' || |rest| == 1)
    ensures temp + Template(Tokens(rest), index) == (temp + [rest[0]]) + Template(Tokens(rest[1..]), index)
  {
  }

  lemma FirstPair(rest: string, index: nat, temp: string)
    requires |rest| >= 2 && rest[0] == '%'
    ensures temp + Template(Tokens(rest), index) ==
            (temp + Piece(Paired(rest[1]), index)) + Template(Tokens(rest[2..]), if Paired(rest[1]).Verb? then index + 1 else index)
  {
    assert Tokens(rest)[1..] == Tokens(rest[2..]);
    Assoc(temp, Piece(Paired(rest[1]), index), Template(Tokens(rest[2..]), if Paired(rest[1]).Verb? then index + 1 else index));
  }

  /** msgToTemplate: one pass, remembering only whether a % is open. */
  method MsgToTemplate(msg: string) returns (temp: string)
    ensures temp == Template(Tokens(msg), 0)
  {
    var fmtstr, index := false, 0;
    temp := "";
    for i := 0 to |msg|
      invariant fmtstr ==> 0 < i < |msg| && msg[i - 1] == '%'
      invariant Template(Tokens(msg), 0) == temp + Template(Tokens(msg[if fmtstr then i - 1 else i..]), index)
    {
      var c := msg[i];
      ghost var rest := msg[if fmtstr then i - 1 else i..];
      if fmtstr {
        assert rest[1] == c && rest[2..] == msg[i + 1..];
        FirstPair(rest, index, temp);
      } else if c != '%' || i == |msg| - 1 {
        assert rest[0] == c && rest[1..] == msg[i + 1..];
        FirstPlain(rest, index, temp);
      }
      if c == '%' {
        if fmtstr || i == |msg| - 1 {
          temp := temp + [c];
          fmtstr := false;
        } else {
          fmtstr := true;
        }
      } else if c in VERBS {
        if fmtstr {
          temp := temp + ("{" + Digits(index) + "}");
          index := index + 1;
          fmtstr := false;
        } else {
          temp := temp + [c];
        }
      } else {
        if fmtstr {
          assert temp + ['%', c] == (temp + "%") + [c];
          temp := temp + "%";
        }
        temp := temp + [c];
        fmtstr := false;
      }
    }
  }

  // ---- Nothing is lost ------------------------------------------------------------------

  lemma TextCons(t: Token, rest: seq<Token>)
    ensures Text([t] + rest) == Spelling(t) + Text(rest)
  {
    assert ([t] + rest)[1..] == rest;
  }

  /** The tokens spell the message, so every character of it is accounted for. */
  lemma {:induction false} TokensSpell(msg: string)
    ensures Text(Tokens(msg)) == msg
  {
    if msg == [] {
    } else if msg[0] != '%' {
      TokensSpell(msg[1..]);
      TextCons(Plain(msg[0]), Tokens(msg[1..]));
    } else if |msg| == 1 {
      TextCons(Trailing, []);
    } else {
      TokensSpell(msg[2..]);
      TextCons(Paired(msg[1]), Tokens(msg[2..]));
      assert Spelling(Paired(msg[1])) == msg[..2];
    }
  }

  /** Messages of plain characters other than { and %, of %% and of simple verbs. */
  predicate Simple(t: Token) {
    match t
    case Plain(c) => c != '{' && c != '%'
    case Percent => true
    case Verb(c) => c in VERBS
    case _ => false
  }

  ghost predicate AllSimple(toks: seq<Token>) {
    forall i | 0 <= i < |toks| :: Simple(toks[i])
  }

  /** Such a message is read as the tokens it was built of. */
  lemma {:induction false} TokensOfText(toks: seq<Token>)
    requires AllSimple(toks)
    ensures Tokens(Text(toks)) == toks
  {
    if toks != [] {
      TokensOfText(toks[1..]);
      var msg := Text(toks);
      if toks[0].Plain? {
        assert msg[1..] == Text(toks[1..]);
      } else {
        assert msg[2..] == Text(toks[1..]);
        assert toks[0].Verb? ==> msg[1] != '%';
      }
      assert toks == [toks[0]] + toks[1..];
    }
  }

  // ---- Reading a template back ---------------------------------------------------------------

  function Value(s: string): (n: nat)
    requires IsNumber(s)
  {
    var last := s[|s| - 1] as int - '0' as int;
    if |s| == 1 then last else 10 * Value(s[..|s| - 1]) + last
  }

  lemma {:induction false} ValueOfDigits(n: nat)
    ensures Value(Digits(n)) == n
  {
    var s := Digits(n);
    if n >= 10 {
      ValueOfDigits(n / 10);
      assert s[..|s| - 1] == Digits(n / 10);
    }
  }

  /** The end of the hole a template starts with, or 0 if it does not start with one. */
  function HoleEnd(t: string): (i: nat)
    ensures i > 0 ==> i < |t| && IsNumber(t[1..i])
  {
    if t != [] && t[0] == '{' && IndexOf(t, '}') > 0 && IsNumber(t[1..IndexOf(t, '}')]) then IndexOf(t, '}') else 0
  }

  /** The numbers of the holes {i} of a template, in order. */
  function Holes(t: string): seq<nat>
    decreases |t|
  {
    if t == [] then []
    else if HoleEnd(t) > 0 then [Value(t[1..HoleEnd(t)])] + Holes(t[HoleEnd(t) + 1..])
    else Holes(t[1..])
  }

  /** The text of a template with its fields put in. */
  function Substitute(t: string, fields: seq<string>): string
    decreases |t|
  {
    if t == [] then []
    else if HoleEnd(t) > 0 && Value(t[1..HoleEnd(t)]) < |fields|
      then fields[Value(t[1..HoleEnd(t)])] + Substitute(t[HoleEnd(t) + 1..], fields)
    else [t[0]] + Substitute(t[1..], fields)
  }

  lemma HoleFirst(n: nat, rest: string)
    ensures var t := "{" + Digits(n) + "}" + rest;
            HoleEnd(t) == |Digits(n)| + 1 && t[1..HoleEnd(t)] == Digits(n) && t[HoleEnd(t) + 1..] == rest
  {
    var t, k := "{" + Digits(n) + "}" + rest, |Digits(n)|;
    assert t[1..k + 1] == Digits(n) && t[k + 1] == '}';
    forall i | 0 <= i < k + 1 ensures t[i] != '}' {
      assert i > 0 ==> t[i] == Digits(n)[i - 1];
    }
    assert IndexOf(t, '}') == k + 1;
  }

  lemma HolesStep(n: nat, rest: string)
    ensures Holes("{" + Digits(n) + "}" + rest) == [n] + Holes(rest)
  {
    HoleFirst(n, rest);
    ValueOfDigits(n);
  }

  lemma SubstituteStep(n: nat, rest: string, fields: seq<string>)
    ensures Substitute("{" + Digits(n) + "}" + rest, fields) ==
            if n < |fields| then fields[n] + Substitute(rest, fields) else "{" + Substitute(Digits(n) + "}" + rest, fields)
  {
    HoleFirst(n, rest);
    ValueOfDigits(n);
    var t := "{" + Digits(n) + "}" + rest;
    assert t[1..] == Digits(n) + "}" + rest;
  }

  function Verbs(toks: seq<Token>): nat {
    if toks == [] then 0 else (if toks[0].Verb? then 1 else 0) + Verbs(toks[1..])
  }

  /** No token has a { of its own. */
  ghost predicate NoBrace(toks: seq<Token>) {
    forall i | 0 <= i < |toks| :: (toks[i].Plain? || toks[i].Odd?) ==> toks[i].c != '{'
  }

  lemma HolesSkip(c: char, rest: string)
    requires c != '{'
    ensures Holes([c] + rest) == Holes(rest)
  {
    assert ([c] + rest)[1..] == rest;
  }

  lemma HolesOfOdd(c: char, rest: string)
    requires c != '{'
    ensures Holes(['%', c] + rest) == Holes(rest)
  {
    assert ['%', c] + rest == ['%'] + ([c] + rest);
    HolesSkip('%', [c] + rest);
    HolesSkip(c, rest);
  }

  lemma HolesOfPiece(t: Token, index: nat, rest: string)
    requires t.Plain? || t.Odd? ==> t.c != '{'
    ensures Holes(Piece(t, index) + rest) == (if t.Verb? then [index] else []) + Holes(rest)
  {
    assert [] + Holes(rest) == Holes(rest);
    match t
    case Verb(_) => HolesStep(index, rest);
    case Odd(c) => HolesOfOdd(c, rest);
    case Plain(c) => HolesSkip(c, rest);
    case _ => HolesSkip('%', rest);
  }

  lemma {:induction false} HolesFrom(toks: seq<Token>, index: nat)
    requires NoBrace(toks)
    ensures |Holes(Template(toks, index))| == Verbs(toks)
    ensures forall i | 0 <= i < Verbs(toks) :: Holes(Template(toks, index))[i] == index + i
  {
    if toks != [] {
      var next := if toks[0].Verb? then index + 1 else index;
      HolesFrom(toks[1..], next);
      HolesOfPiece(toks[0], index, Template(toks[1..], next));
    }
  }

  lemma {:induction false} NoBraceInTokens(msg: string)
    requires '{' !in msg
    ensures NoBrace(Tokens(msg))
  {
    if |msg| >= 1 && msg[0] != '%' {
      NoBraceInTokens(msg[1..]);
    } else if |msg| >= 2 {
      NoBraceInTokens(msg[2..]);
      assert Paired(msg[1]).Odd? ==> msg[1] != '{';
    }
  }

  /** In every message without { the holes are numbered from zero in the order of the verbs, none skipped, none twice. */
  lemma HolesInOrder(msg: string)
    requires '{' !in msg
    ensures |Holes(Template(Tokens(msg), 0))| == Verbs(Tokens(msg))
    ensures forall i | 0 <= i < Verbs(Tokens(msg)) :: Holes(Template(Tokens(msg), 0))[i] == i
  {
    NoBraceInTokens(msg);
    HolesFrom(Tokens(msg), 0);
  }

  /** A { of the message itself can make a hole that no verb asked for. */
  lemma BraceExample()
    ensures Verbs(Tokens("{7}")) == 0 && Holes(Template(Tokens("{7}"), 0)) == [7]
  {
    var msg := "{7}";
    assert Tokens(msg[1..][1..]) == [Plain('}')];
    assert Tokens(msg[1..]) == [Plain('7')] + Tokens(msg[1..][1..]);
    SameIffNothingFormatted(msg, 0);
    assert Digits(7) == "7";
    HolesStep(7, "");
    assert msg == "{" + Digits(7) + "}" + "";
  }

  /** The characters that make a hole when they follow a %. */
  lemma HoleCharacters(c: char)
    ensures Template(Tokens(['%', c]), 0) == "{0}" <==>
      || c == 'v' || c == 'T' || c == 't' || c == 'b' || c == 'c' || c == 'd' || c == 'o' || c == 'q' || c == 'x' || c == 'X'
      || c == 'U' || c == 'e' || c == 'E' || c == 'f' || c == 'F' || c == 'g' || c == 'G' || c == 's' || c == 'p'
  {
    var msg := ['%', c];
    assert Tokens(msg) == [Paired(msg[1])] + Tokens(msg[2..]);
    assert Tokens(msg) == [Paired(c)];
    assert Template(Tokens(msg), 0) == Piece(Paired(c), 0) + [];
    assert Digits(0) == "0";
    assert Paired(c).Verb? <==> c in "vTtbcdoqxXUeEfFgGsp";
  }

  // ---- Substitution is formatting ----------------------------------------------------------

  /** The message formatted directly; `verb` prints one param under one verb. */
  function Formatted<A>(toks: seq<Token>, index: nat, params: seq<A>, verb: (char, A) -> string): string
    requires index + Verbs(toks) <= |params|
  {
    if toks == [] then []
    else
      match toks[0]
      case Verb(c) => verb(c, params[index]) + Formatted(toks[1..], index + 1, params, verb)
      case Percent => "%" + Formatted(toks[1..], index, params, verb)
      case _ => Spelling(toks[0]) + Formatted(toks[1..], index, params, verb)
  }

  /** Every verb prints its param as the fields show it. */
  ghost predicate PrintsAs<A>(toks: seq<Token>, index: nat, params: seq<A>, verb: (char, A) -> string, fields: seq<string>)
    requires index + Verbs(toks) <= |params| == |fields|
  {
    toks != [] ==>
      && (toks[0].Verb? ==> verb(toks[0].c, params[index]) == fields[index])
      && PrintsAs(toks[1..], if toks[0].Verb? then index + 1 else index, params, verb, fields)
  }

  /** Putting the fields into the holes of the template gives the formatted message. */
  lemma {:induction false} SubstituteFormats<A>(toks: seq<Token>, index: nat, params: seq<A>, verb: (char, A) -> string, fields: seq<string>)
    requires AllSimple(toks) && index + Verbs(toks) <= |params| == |fields|
    requires PrintsAs(toks, index, params, verb, fields)
    ensures Substitute(Template(toks, index), fields) == Formatted(toks, index, params, verb)
  {
    if toks != [] {
      var next := if toks[0].Verb? then index + 1 else index;
      SubstituteFormats(toks[1..], next, params, verb, fields);
      if toks[0].Verb? {
        SubstituteStep(index, Template(toks[1..], next), fields);
      } else {
        assert Template(toks, index)[1..] == Template(toks[1..], next);
      }
    }
  }

  /** Sprint of every param, as the fields of an error. */
  function Shown<A>(params: seq<A>, sprint: A -> string): (fields: seq<string>)
    ensures |fields| == |params| && forall i | 0 <= i < |params| :: fields[i] == sprint(params[i])
  {
    seq(|params|, i requires 0 <= i < |params| => sprint(params[i]))
  }

  /** The message has the same text directly and through its template. */
  ghost predicate Agrees<A>(msg: string, params: seq<A>, verb: (char, A) -> string, sprint: A -> string)
    requires Verbs(Tokens(msg)) == |params|
  {
    Substitute(Template(Tokens(msg), 0), Shown(params, sprint)) == Formatted(Tokens(msg), 0, params, verb)
  }

  ghost predicate PrintsAsSprint<A(!new)>(verb: (char, A) -> string, sprint: A -> string) {
    forall c: char, p: A | c in VERBS :: verb(c, p) == sprint(p)
  }

  lemma {:induction false} SprintPrints<A(!new)>(toks: seq<Token>, index: nat, params: seq<A>, verb: (char, A) -> string, sprint: A -> string)
    requires AllSimple(toks) && index + Verbs(toks) <= |params| && PrintsAsSprint(verb, sprint)
    ensures PrintsAs(toks, index, params, verb, Shown(params, sprint))
    decreases |toks|
  {
    if toks != [] {
      SprintPrints(toks[1..], if toks[0].Verb? then index + 1 else index, params, verb, sprint);
    }
  }

  /** For a message that is one verb the texts agree exactly when it prints as Sprint does. */
  lemma LoneVerb<A>(c: char, param: A, verb: (char, A) -> string, sprint: A -> string)
    requires c in VERBS
    ensures Tokens(['%', c]) == [Verb(c)] && (Agrees(['%', c], [param], verb, sprint) <==> verb(c, param) == sprint(param))
  {
    var msg, fields := ['%', c], Shown([param], sprint);
    assert Tokens(msg) == [Paired(msg[1])] + Tokens(msg[2..]);
    SubstituteStep(0, "", fields);
    assert Template([Verb(c)], 0) == "{" + Digits(0) + "}" + "";
    assert fields[0] + Substitute("", fields) == sprint(param);
    assert Formatted([Verb(c)], 0, [param], verb) == verb(c, param) + [];
  }

  /**
   Substituting into the template is formatting, for every message in the simple grammar with one
   param per verb, iff every verb prints every param as Sprint does.
   */
  lemma SubstitutingIsFormattingIff<A(!new)>(verb: (char, A) -> string, sprint: A -> string)
    ensures (forall msg: string, params: seq<A> | AllSimple(Tokens(msg)) && Verbs(Tokens(msg)) == |params| ::
               Agrees(msg, params, verb, sprint))
            <==> PrintsAsSprint(verb, sprint)
  {
    if PrintsAsSprint(verb, sprint) {
      forall msg: string, params: seq<A> | AllSimple(Tokens(msg)) && Verbs(Tokens(msg)) == |params|
        ensures Agrees(msg, params, verb, sprint) {
        SprintPrints(Tokens(msg), 0, params, verb, sprint);
        SubstituteFormats(Tokens(msg), 0, params, verb, Shown(params, sprint));
      }
    } else {
      var c: char, p: A :| c in VERBS && verb(c, p) != sprint(p);
      LoneVerb(c, p, verb, sprint);
      assert !Agrees(['%', c], [p], verb, sprint);
    }
  }

  /** The number 255 under %x is "ff" when formatted and "255" when substituted. */
  lemma HexExample(verb: (char, int) -> string, sprint: int -> string)
    requires verb('x', 255) == "ff" && sprint(255) == "255"
    ensures Tokens("%x") == [Verb('x')] && !Agrees("%x", [255], verb, sprint)
  {
    LoneVerb('x', 255, verb, sprint);
    assert "%x" == ['%', 'x'];
  }

  /** One message: it is enough that its own verbs print its own params as the fields show them. */
  lemma TextIsTemplate<A>(toks: seq<Token>, params: seq<A>, verb: (char, A) -> string, fields: seq<string>)
    requires AllSimple(toks) && Verbs(toks) == |params| == |fields| && PrintsAs(toks, 0, params, verb, fields)
    ensures Tokens(Text(toks)) == toks
    ensures Substitute(Template(Tokens(Text(toks)), 0), fields) == Formatted(Tokens(Text(toks)), 0, params, verb)
  {
    TokensOfText(toks);
    SubstituteFormats(toks, 0, params, verb, fields);
  }

  // ---- Unformatted messages ---------------------------------------------------------------------

  predicate Formats(t: Token) {
    t.Percent? || t.Verb?
  }

  ghost predicate NothingFormatted(toks: seq<Token>) {
    forall i | 0 <= i < |toks| :: !Formats(toks[i])
  }

  lemma NothingFormattedCons(t: Token, rest: seq<Token>)
    ensures NothingFormatted([t] + rest) <==> !Formats(t) && NothingFormatted(rest)
  {
    var all := [t] + rest;
    assert all[0] == t;
    assert forall i | 0 <= i < |rest| :: rest[i] == all[i + 1];
    assert forall i | 0 < i < |all| :: all[i] == rest[i - 1];
  }

  /** The number of % a text starts with. */
  function Opening(s: string): nat {
    if s != [] && s[0] == '%' then 1 + Opening(s[1..]) else 0
  }

  /** A message that starts with %% starts with more % than its template. */
  lemma {:induction false} OpeningPercents(msg: string, index: nat)
    ensures Opening(Template(Tokens(msg), index)) <= Opening(msg)
    ensures |msg| >= 2 && msg[0] == '%' && msg[1] == '%' ==> Opening(Template(Tokens(msg), index)) < Opening(msg)
  {
    if |msg| >= 2 && msg[0] == '%' && msg[1] == '%' {
      OpeningPercents(msg[2..], index);
      assert Tokens(msg)[1..] == Tokens(msg[2..]);
      assert Template(Tokens(msg), index)[1..] == Template(Tokens(msg[2..]), index);
      assert msg[1..][1..] == msg[2..];
    } else if msg != [] {
      OpeningOther(msg, index);
    }
  }

  lemma OpeningOther(msg: string, index: nat)
    requires msg != [] && (msg[0] != '%' || |msg| == 1 || msg[1] != '%')
    ensures Opening(Template(Tokens(msg), index)) <= Opening(msg)
  {
    var t := Template(Tokens(msg), index);
    if msg[0] != '%' {
      assert t[0] == msg[0];
    } else if |msg| == 1 {
      assert Tokens(msg) == [Trailing] && t == "%";
    } else if msg[1] in VERBS {
      assert t[0] == '{';
    } else {
      assert Piece(Tokens(msg)[0], index) == ['%', msg[1]];
      assert t[0] == '%' && t[1..][0] == msg[1];
    }
  }

  lemma {:induction false} SameIffNothingFormatted(msg: string, index: nat)
    ensures Template(Tokens(msg), index) == msg <==> NothingFormatted(Tokens(msg))
  {
    if msg != [] {
      var toks, t := Tokens(msg), Template(Tokens(msg), index);
      NothingFormattedCons(toks[0], toks[1..]);
      assert toks == [toks[0]] + toks[1..];
      if msg[0] != '%' {
        SameIffNothingFormatted(msg[1..], index);
        assert toks[1..] == Tokens(msg[1..]) && t[1..] == Template(Tokens(msg[1..]), index);
      } else if |msg| == 1 {
        assert toks == [Trailing] && t == "%";
      } else if msg[1] == '%' {
        OpeningPercents(msg, index);
      } else if msg[1] in VERBS {
        assert t[0] == '{';
      } else {
        SameIffNothingFormatted(msg[2..], index);
        assert toks[1..] == Tokens(msg[2..]) && t == ['%', msg[1]] + Template(Tokens(msg[2..]), index);
        assert t[2..] == Template(Tokens(msg[2..]), index) && msg == ['%', msg[1]] + msg[2..];
      }
    }
  }

  /** Without fields nothing is put in. */
  lemma {:induction false} NothingToSubstitute(t: string)
    ensures Substitute(t, []) == t
  {
    if t != [] { NothingToSubstitute(t[1..]); }
  }

  /**
   Without params every message goes out unformatted: it agrees with its template exactly when
   formatting would leave it alone, that is, it has no %% and no % before a verb.
   */
  lemma NoParamsAgreesIff(msg: string)
    ensures Substitute(Template(Tokens(msg), 0), []) == msg <==> NothingFormatted(Tokens(msg))
  {
    NothingToSubstitute(Template(Tokens(msg), 0));
    SameIffNothingFormatted(msg, 0);
  }

  /** "50%%" without params is shown as written, while its template reads "50%". */
  lemma UnformattedExample()
    ensures Substitute(Template(Tokens("50%%"), 0), []) == "50%"
  {
  }

  // ---- errorMessage ---------------------------------------------------------------------------

  /** Sprintf formats this message verb by verb, and the verbs print their params as the fields show them. */
  ghost predicate FormattedBy<A>(msg: string, params: seq<A>, verb: (char, A) -> string, text: string, fields: seq<string>) {
    && AllSimple(Tokens(msg)) && Verbs(Tokens(msg)) == |params| == |fields|
    && text == Formatted(Tokens(msg), 0, params, verb) && PrintsAs(Tokens(msg), 0, params, verb, fields)
  }

  /**
   errorMessage: the text, the template and the fields.  The text is that of the template with its
   fields put in, if there are params and they are formatted as shown, and without params iff there
   is nothing to format.
   */
  method ErrorMessage<A>(msg: string, params: seq<A>, sprint: A -> string, sprintf: (string, seq<A>) -> string,
                         ghost verb: (char, A) -> string)
    returns (text: string, id: string, fields: seq<string>)
    ensures text == if params != [] then sprintf(msg, params) else msg
    ensures id == Template(Tokens(msg), 0) && fields == Shown(params, sprint)
    ensures params != [] && FormattedBy(msg, params, verb, sprintf(msg, params), fields) ==> Substitute(id, fields) == text
    ensures params == [] ==> (Substitute(id, fields) == text <==> NothingFormatted(Tokens(msg)))
  {
    fields := [];
    for i := 0 to |params|
      invariant |fields| == i && forall j | 0 <= j < i :: fields[j] == sprint(params[j])
    {
      fields := fields + [sprint(params[i])];
    }
    id := MsgToTemplate(msg);
    text := msg;
    if |params| > 0 {
      text := sprintf(msg, params);
    }
    NoParamsAgreesIff(msg);
    if FormattedBy(msg, params, verb, sprintf(msg, params), fields) {
      SubstituteFormats(Tokens(msg), 0, params, verb, fields);
    }
  }
}
