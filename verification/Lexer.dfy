/** The lexer: what it takes off a stream as one token, and its loops over characters. */
module Lexer {
  import opened Buffers
  import DStr
  import Hashgen

  datatype Kind = TtEof | TtStr | TtId | TtAssign | TtStrLit
  datatype Token = Token(kind: Kind, lexeme: string)

  /** One token and what is left of the stream, or a usage error that ends the program. */
  datatype Step = Got(token: Token, rest: string) | Bad

  predicate IsSpace(c: char) {
    c == ' ' || '\t' <= c <= '\r'
  }

  predicate IsLower(c: char) {
    'a' <= c <= 'z'
  }

  predicate IsAlpha(c: char) {
    IsLower(c) || 'A' <= c <= 'Z'
  }

  // ----- one token ----------------------------------------------------------

  function SkipSpace(s: string): (r: string)
    ensures |r| <= |s| && (r != [] ==> !IsSpace(r[0]))
  {
    if s != [] && IsSpace(s[0]) then SkipSpace(s[1..]) else s
  }

  /** The longest prefix of letters. */
  function Word(s: string): (w: string)
    ensures |w| <= |s| && w == s[..|w|]
  {
    if s != [] && IsAlpha(s[0]) then [s[0]] + Word(s[1..]) else []
  }

  /** Where the first quote is, or the length. */
  function QuoteAt(s: string): (i: nat)
    ensures i <= |s| && (i < |s| ==> s[i] == '"')
  {
    if s == [] || s[0] == '"' then 0 else 1 + QuoteAt(s[1..])
  }

  function WordKind(w: string): Kind {
    if w == "str" then TtStr else TtId
  }

  function LexOne(s: string): Step {
    LexHere(SkipSpace(s))
  }

  /** A token at the start. A word takes the character after it along, whatever it is. */
  function LexHere(t: string): Step {
    if t == [] then Got(Token(TtEof, []), [])
    else if t[0] == '"' then
      var q := QuoteAt(t[1..]);
      if q < |t| - 1 then Got(Token(TtStrLit, t[1..][..q]), t[1..][q + 1..]) else Bad
    else if t[0] == '=' then Got(Token(TtAssign, []), t[1..])
    else if IsLower(t[0]) then Got(Token(WordKind(Word(t)), Word(t)), Rest(t[|Word(t)|..]))
    else Bad
  }

  lemma LexOneShrinks(s: string)
    ensures var r := LexOne(s); r.Got? ==> |r.rest| <= |s| && (r.token.kind != TtEof ==> |r.rest| < |s|)
  {
  }

  /** All tokens up to the end of the stream, and whether it was reached. */
  function LexAll(s: string): (seq<Token>, bool)
    decreases |s|
  {
    LexOneShrinks(s);
    match LexOne(s)
    case Bad => ([], false)
    case Got(t, rest) =>
      if t.kind == TtEof then ([], true)
      else var (ts, ok) := LexAll(rest); ([t] + ts, ok)
  }

  // ----- what the lexer accepts, character by character ----------------------

  /** Tab, newline, vertical tab, form feed, carriage return and space. */
  predicate White(c: char) {
    c as int in {9, 10, 11, 12, 13, 32}
  }

  predicate Small(c: char) {
    97 <= c as int <= 122
  }

  predicate Letter(c: char) {
    Small(c) || 65 <= c as int <= 90
  }

  /** The first k characters are white space and the one after them, if any, is not. */
  predicate Leads(s: string, k: nat) {
    k <= |s| && (forall j :: 0 <= j < k ==> White(s[j])) && (k < |s| ==> !White(s[k]))
  }

  lemma {:induction false} LeadSkipped(s: string, k: nat)
    requires Leads(s, k)
    ensures SkipSpace(s) == s[k..]
  {
    if k > 0 {
      assert forall j :: 0 <= j < k - 1 ==> s[1..][j] == s[j + 1];
      LeadSkipped(s[1..], k - 1);
    }
  }

  lemma {:induction false} SomeLead(s: string) returns (k: nat)
    ensures Leads(s, k)
  {
    k := 0;
    if s != [] && White(s[0]) {
      k := SomeLead(s[1..]);
      assert forall j :: 0 < j <= k ==> s[j] == s[1..][j - 1];
      k := k + 1;
    }
  }

  lemma {:induction false} RunOfLetters(s: string, m: nat)
    requires m <= |s| && (forall j :: 0 <= j < m ==> Letter(s[j])) && (m < |s| ==> !Letter(s[m]))
    ensures Word(s) == s[..m]
  {
    if m > 0 {
      assert forall j :: 0 <= j < m - 1 ==> s[1..][j] == s[j + 1];
      RunOfLetters(s[1..], m - 1);
      assert s[..m] == [s[0]] + s[1..][..m - 1];
    }
  }

  lemma {:induction false} FirstQuote(s: string, m: nat)
    requires m <= |s| && (forall j :: 0 <= j < m ==> s[j] != '"') && (m < |s| ==> s[m] == '"')
    ensures QuoteAt(s) == m
  {
    if m > 0 {
      assert forall j :: 0 <= j < m - 1 ==> s[1..][j] == s[j + 1];
      FirstQuote(s[1..], m - 1);
    }
  }

  /** At the end of the text is the end; an equals sign is a token of its own. */
  lemma LexMark(s: string, k: nat)
    requires Leads(s, k)
    ensures k == |s| ==> LexOne(s) == Got(Token(TtEof, []), [])
    ensures k < |s| && s[k] == '=' ==> LexOne(s) == Got(Token(TtAssign, []), s[k + 1..])
  {
    LeadSkipped(s, k);
  }

  /** A small letter begins a word, which is a keyword or not and takes one more character. */
  lemma LexLetters(s: string, k: nat, m: nat)
    requires Leads(s, k) && k < m <= |s| && Small(s[k])
    requires (forall j :: k <= j < m ==> Letter(s[j])) && (m < |s| ==> !Letter(s[m]))
    ensures LexOne(s) == Got(Token(if s[k..m] == ['s', 't', 'r'] then TtStr else TtId, s[k..m]),
                             if m < |s| then s[m + 1..] else [])
  {
    LeadSkipped(s, k);
    var t := s[k..];
    assert forall j :: 0 <= j < m - k ==> t[j] == s[k + j];
    RunOfLetters(t, m - k);
    assert t[..m - k] == s[k..m] && t[m - k..] == s[m..];
    assert "str" == ['s', 't', 'r'];
  }

  /** A quote begins a literal, which ends at the next quote and fails without one. */
  lemma LexQuote(s: string, k: nat, m: nat)
    requires Leads(s, k) && k < |s| && s[k] == '"' && k < m <= |s|
    requires (forall j :: k < j < m ==> s[j] != '"') && (m < |s| ==> s[m] == '"')
    ensures LexOne(s) == if m < |s| then Got(Token(TtStrLit, s[k + 1..m]), s[m + 1..]) else Bad
  {
    LeadSkipped(s, k);
    var t := s[k..];
    assert forall j :: 0 <= j < m - k - 1 ==> t[1..][j] == s[k + 1 + j];
    FirstQuote(t[1..], m - k - 1);
    if m < |s| {
      assert t[1..][..m - k - 1] == s[k + 1..m] && t[1..][m - k..] == s[m + 1..];
    }
  }

  lemma LexOther(s: string, k: nat)
    requires Leads(s, k) && k < |s| && s[k] != '=' && !Small(s[k]) && s[k] != '"'
    ensures LexOne(s) == Bad
  {
    LeadSkipped(s, k);
  }

  /** The character at k is the first that is no white space, and no token begins with it. */
  predicate NoToken(s: string, k: nat) {
    && k < |s| && Leads(s, k) && s[k] != '=' && !Small(s[k])
    && !(s[k] == '"' && exists m :: k < m < |s| && s[m] == '"')
  }

  /** Exactly when the lexer fails, and exactly when it comes to the end. */
  lemma LexOneExact(s: string)
    ensures LexOne(s).Bad? <==> exists k: nat :: NoToken(s, k)
    ensures LexOne(s).Got? && LexOne(s).token.kind == TtEof <==> forall j :: 0 <= j < |s| ==> White(s[j])
  {
    var k := SomeLead(s);
    LexMark(s, k);
    forall i: nat | Leads(s, i) ensures i == k {
    }
    if k < |s| && s[k] == '"' {
      LeadSkipped(s, k);
      var m := k + 1 + QuoteAt(s[k..][1..]);
      forall j | k < j < m ensures s[j] != '"' {
        NoQuoteBefore(s[k..][1..], j - k - 1);
      }
      LexQuote(s, k, m);
      if m == |s| {
        assert NoToken(s, k);
      } else {
        assert s[m] == '"' && !NoToken(s, k);
      }
    } else if k < |s| && Small(s[k]) {
      LeadSkipped(s, k);
    } else if k < |s| && s[k] != '=' {
      LexOther(s, k);
      assert NoToken(s, k);
    }
  }

  /** A digit is no token: x = 5 gives a word and an equals sign, and then fails. */
  lemma DigitFails()
    ensures LexAll("x = 5") == ([Token(TtId, "x"), Token(TtAssign, [])], false)
  {
    LexLetters("x = 5", 0, 1);
    assert "x = 5"[2..] == "= 5" && "x = 5"[0..1] == "x";
    LexMark("= 5", 0);
    assert "= 5"[1..] == " 5";
    LexOther(" 5", 1);
    assert LexAll(" 5") == ([], false);
    var a, b := Token(TtId, "x"), Token(TtAssign, []);
    assert LexAll("= 5") == ([b] + LexAll(" 5").0, false) && [b] + LexAll(" 5").0 == [b];
    assert LexAll("x = 5") == ([a] + LexAll("= 5").0, false) && [a] + [b] == [a, b];
  }

  lemma {:induction false} NoQuoteBefore(s: string, j: nat)
    requires j < QuoteAt(s)
    ensures s[j] != '"'
  {
    if j > 0 {
      NoQuoteBefore(s[1..], j - 1);
    }
  }

  /** All tokens, told by the texts left after each: every token is the next one of the text
      before it, and the last text is at its end, or fails. */
  lemma {:induction false} LexAllTrace(s: string) returns (texts: seq<string>)
    ensures var (ts, ok) := LexAll(s);
            && |texts| == |ts| + 1 && texts[0] == s
            && (forall i :: 0 <= i < |ts| ==> LexOne(texts[i]) == Got(ts[i], texts[i + 1]) && ts[i].kind != TtEof)
            && var last := LexOne(texts[|ts|]);
               if ok then last.Got? && last.token.kind == TtEof else last.Bad?
    decreases |s|
  {
    LexOneShrinks(s);
    texts := [s];
    if LexOne(s).Got? && LexOne(s).token.kind != TtEof {
      var rest := LexAllTrace(LexOne(s).rest);
      texts := texts + rest;
    }
  }

  // The keyword table is one the generator makes: one slot, for the one keyword.
  const KWORDS: seq<Hashgen.Slot> := [Hashgen.Taken("str")]

  /** Its look-up accepts the keyword and nothing else. */
  lemma KeywordExact(w: string)
    ensures Hashgen.Lookup(KWORDS, Hashgen.StrHash, w) <==> w == "str"
  {
    var h := Hashgen.StrHash;
    assert h(w) % 1 == 0 && h("str") % 1 == 0;
  }

  // ----- printing and lexing back -------------------------------------------

  predicate Blank(s: string) {
    forall i :: 0 <= i < |s| ==> IsSpace(s[i])
  }

  predicate Letters(s: string) {
    forall i :: 0 <= i < |s| ==> IsAlpha(s[i])
  }

  predicate IsWord(t: Token) {
    t.kind == TtStr || t.kind == TtId
  }

  predicate ValidToken(t: Token) {
    match t.kind
    case TtEof => false
    case TtStr => t.lexeme == "str"
    case TtId => t.lexeme != [] && IsLower(t.lexeme[0]) && Letters(t.lexeme) && t.lexeme != "str"
    case TtAssign => t.lexeme == []
    case TtStrLit => '"' !in t.lexeme
  }

  function Text(t: Token): string {
    match t.kind
    case TtAssign => "="
    case TtStrLit => "\"" + t.lexeme + "\""
    case _ => t.lexeme
  }

  /** Tokens, each with the white space after it. */
  datatype Spaced = Spaced(token: Token, gap: string)

  predicate Printable(ps: seq<Spaced>) {
    forall i :: 0 <= i < |ps| ==> ValidToken(ps[i].token) && Blank(ps[i].gap)
  }

  function Print(ps: seq<Spaced>): string {
    if ps == [] then [] else Text(ps[0].token) + ps[0].gap + Print(ps[1..])
  }

  function TokensOf(ps: seq<Spaced>): seq<Token> {
    if ps == [] then [] else [ps[0].token] + TokensOf(ps[1..])
  }

  lemma {:induction false} SkipBlank(b: string, s: string)
    requires Blank(b) && (s == [] || !IsSpace(s[0]))
    ensures SkipSpace(b + s) == s
  {
    if b == [] {
      assert b + s == s;
    } else {
      assert (b + s)[1..] == b[1..] + s;
      SkipBlank(b[1..], s);
    }
  }

  lemma {:induction false} WordStops(w: string, s: string)
    requires Letters(w) && (s == [] || !IsAlpha(s[0]))
    ensures Word(w + s) == w
  {
    if w == [] {
      assert w + s == s;
    } else {
      assert (w + s)[1..] == w[1..] + s;
      WordStops(w[1..], s);
    }
  }

  lemma {:induction false} QuoteEnds(x: string, s: string)
    requires '"' !in x
    ensures QuoteAt(x + "\"" + s) == |x|
  {
    var t := x + "\"" + s;
    if x != [] {
      assert t[1..] == x[1..] + "\"" + s;
      QuoteEnds(x[1..], s);
    }
  }

  /** A word loses the character after it, whatever it is: white space, a quote or an equals sign. */
  lemma WordEatsNext(w: string, c: char, s: string, lead: string)
    requires Blank(lead) && Letters(w) && w != [] && IsLower(w[0]) && !IsAlpha(c)
    ensures LexOne(lead + (w + ([c] + s))) == Got(Token(WordKind(w), w), s)
  {
    var rest := [c] + s;
    SkipBlank(lead, w + rest);
    WordStops(w, rest);
    assert (w + rest)[|w|..] == rest && rest[1..] == s;
  }

  lemma EqualsLost()
    ensures LexAll("x=") == ([Token(TtId, "x")], true)
  {
    WordEatsNext("x", '=', [], []);
    assert "x=" == [] + ("x" + (['='] + []));
    var empty: string := [];
    assert SkipSpace(empty) == [] && LexAll(empty) == ([], true);
    assert LexAll("x=") == ([Token(TtId, "x")] + LexAll(empty).0, LexAll(empty).1);
    assert [Token(TtId, "x")] + LexAll(empty).0 == [Token(TtId, "x")];
  }

  lemma LexWord(t: Token, gap: string, s: string, lead: string)
    requires Blank(lead) && ValidToken(t) && IsWord(t) && Blank(gap) && gap != []
    ensures LexOne(lead + (t.lexeme + gap + s)) == Got(t, gap[1..] + s)
  {
    var w, more := t.lexeme, gap[1..] + s;
    var rest := [gap[0]] + more;
    assert w + gap + s == w + rest by {
      assert gap + s == rest;
      assert w + gap + s == w + (gap + s);
    }
    WordEatsNext(w, gap[0], more, lead);
  }

  lemma LexLastWord(t: Token, lead: string)
    requires Blank(lead) && ValidToken(t) && IsWord(t)
    ensures LexOne(lead + t.lexeme) == Got(t, [])
  {
    var w := t.lexeme;
    SkipBlank(lead, w);
    WordStops(w, []);
    assert w + [] == w;
  }

  lemma LexLiteral(t: Token, s: string, lead: string)
    requires Blank(lead) && ValidToken(t) && t.kind == TtStrLit
    ensures LexOne(lead + (Text(t) + s)) == Got(t, s)
  {
    var x := t.lexeme;
    var u := Text(t) + s;
    SkipBlank(lead, u);
    assert u[1..] == x + "\"" + s;
    QuoteEnds(x, s);
    assert (x + "\"" + s)[..|x|] == x && (x + "\"" + s)[|x| + 1..] == s;
  }

  lemma LexAssign(t: Token, s: string, lead: string)
    requires Blank(lead) && ValidToken(t) && t.kind == TtAssign
    ensures LexOne(lead + (Text(t) + s)) == Got(t, s)
  {
    SkipBlank(lead, Text(t) + s);
    assert (Text(t) + s)[1..] == s;
  }

  /** A token with white space behind it, if it is a word, comes back, and the rest is lexed next. */
  lemma LexFirst(lead: string, ps: seq<Spaced>) returns (lead': string)
    requires Blank(lead) && Printable(ps) && ps != [] && (IsWord(ps[0].token) ==> ps[0].gap != [])
    ensures Blank(lead') && LexOne(lead + Print(ps)) == Got(ps[0].token, lead' + Print(ps[1..]))
  {
    var t, gap, more := ps[0].token, ps[0].gap, Print(ps[1..]);
    if IsWord(t) {
      LexWord(t, gap, more, lead);
      lead' := gap[1..];
    } else {
      lead' := gap;
      assert Text(t) + gap + more == Text(t) + (gap + more);
      if t.kind == TtStrLit {
        LexLiteral(t, gap + more, lead);
      } else {
        LexAssign(t, gap + more, lead);
      }
    }
  }

  lemma PrintStarts(ps: seq<Spaced>, lead: string)
    requires Blank(lead) && Printable(ps) && ps != []
    ensures Print(ps) != [] && Print(ps)[0] == Text(ps[0].token)[0] && !IsSpace(Print(ps)[0])
    ensures SkipSpace(lead + Print(ps)) == Print(ps)
  {
    SkipBlank(lead, Print(ps));
  }

  // Without white space behind a word: what the word has swallowed never comes right again.

  /** A letter makes the word longer. */
  lemma LettersSwallowed(w: string, c: char, s: string, lead: string)
    requires Blank(lead) && Letters(w) && w != [] && IsLower(w[0]) && IsAlpha(c)
    ensures LexOne(lead + (w + ([c] + s))).Got? && |LexOne(lead + (w + ([c] + s))).token.lexeme| > |w|
  {
    SkipBlank(lead, w + ([c] + s));
    WordGoesOn(w, c, s);
  }

  lemma {:induction false} WordGoesOn(w: string, c: char, s: string)
    requires Letters(w) && IsAlpha(c)
    ensures |Word(w + ([c] + s))| > |w|
  {
    var t := w + ([c] + s);
    if w != [] {
      assert t[1..] == w[1..] + ([c] + s);
      WordGoesOn(w[1..], c, s);
    }
  }

  /** After one token, the others decide. */
  lemma FirstOff(s: string, t: Token, rest: string, ts: seq<Token>)
    requires LexOne(s) == Got(t, rest) && t.kind != TtEof
    ensures LexAll(s) == ([t] + ts, true) <==> LexAll(rest) == (ts, true)
  {
    LexOneShrinks(s);
    var (us, ok) := LexAll(rest);
    assert LexAll(s) == ([t] + us, ok);
    assert ([t] + us)[1..] == us && ([t] + ts)[1..] == ts;
  }

  lemma OtherFirst(s: string, t: Token, ts: seq<Token>)
    requires LexOne(s).Got? ==> LexOne(s).token != t
    ensures LexAll(s) != ([t] + ts, true)
  {
    if LexOne(s).Got? {
      LexOneShrinks(s);
      var us := LexAll(s).0;
      assert ([t] + ts)[0] == t;
      assert us == [] || us[0] == LexOne(s).token;
    }
  }

  /** The first character that is no white space tells the kinds apart. */
  lemma FirstCharKind(s: string)
    requires SkipSpace(s) != [] && LexOne(s).Got?
    ensures LexOne(s).token.kind == TtAssign <==> SkipSpace(s)[0] == '='
    ensures LexOne(s).token.kind == TtStrLit <==> SkipSpace(s)[0] == '"'
  {
  }

  /** Behind a swallowed equals sign the tokens stay one short. */
  lemma {:induction false} EqualsNeverBack(lead: string, ps: seq<Spaced>)
    requires Blank(lead) && Printable(ps)
    ensures LexAll(lead + Print(ps)) != ([Token(TtAssign, [])] + TokensOf(ps), true)
    decreases |ps|
  {
    var s, t := lead + Print(ps), Token(TtAssign, []);
    if ps == [] {
      SkipBlank(lead, []);
      OtherFirst(s, t, []);
    } else if ps[0].token.kind == TtAssign {
      var lead' := LexFirst(lead, ps);
      EqualsNeverBack(lead', ps[1..]);
      FirstOff(s, t, lead' + Print(ps[1..]), TokensOf(ps));
    } else {
      PrintStarts(ps, lead);
      if LexOne(s).Got? { FirstCharKind(s); }
      OtherFirst(s, t, TokensOf(ps));
    }
  }

  /** Behind a swallowed quote the inside of every literal is outside and the other way round. */
  lemma {:induction false} QuoteNeverBack(x: string, gap: string, ps: seq<Spaced>)
    requires '"' !in x && Blank(gap) && Printable(ps)
    ensures LexAll(x + ("\"" + (gap + Print(ps)))) != ([Token(TtStrLit, x)] + TokensOf(ps), true)
    decreases |ps|
  {
    var s, t := x + ("\"" + (gap + Print(ps))), Token(TtStrLit, x);
    if LexOne(s).Got? && LexOne(s).token == t {
      QuoteIsLiteral(x, gap, ps);
      var y, gap' := ps[0].token.lexeme, ps[0].gap;
      QuoteNeverBack(y, gap', ps[1..]);
      FirstOff(s, t, y + ("\"" + (gap' + Print(ps[1..]))), TokensOf(ps));
    } else {
      OtherFirst(s, t, TokensOf(ps));
    }
  }

  /** The first token is the literal all the same only when it is white space and the quote that
      ends it is one that begins the next literal. */
  lemma QuoteIsLiteral(x: string, gap: string, ps: seq<Spaced>)
    requires '"' !in x && Blank(gap) && Printable(ps)
    requires LexOne(x + ("\"" + (gap + Print(ps)))).Got?
    requires LexOne(x + ("\"" + (gap + Print(ps)))).token == Token(TtStrLit, x)
    ensures ps != [] && ValidToken(ps[0].token) && ps[0].token.kind == TtStrLit
    ensures LexOne(x + ("\"" + (gap + Print(ps)))).rest == ps[0].token.lexeme + ("\"" + (ps[0].gap + Print(ps[1..])))
  {
    var u := gap + Print(ps);
    var s := "\"" + u;
    if !Blank(x) {
      SkipInto(x, s);
      FirstCharKind(x + s);
      assert false;
    }
    SkipBlank(x, s);
    assert s[1..] == u;
    QuoteAfterGap(x, gap, ps);
    assert LexOne(x + s).rest == u[|gap| + 1..];
    AfterQuote(gap, ps);
  }

  /** A literal of white space only can end at nothing but the quote of the next literal. */
  lemma QuoteAfterGap(x: string, gap: string, ps: seq<Spaced>)
    requires Blank(x) && Blank(gap) && Printable(ps)
    requires var u := gap + Print(ps); QuoteAt(u) < |u| && u[..QuoteAt(u)] == x
    ensures ps != [] && ps[0].token.kind == TtStrLit && x == gap
  {
    var u := gap + Print(ps);
    var q := QuoteAt(u);
    assert forall i :: 0 <= i < |gap| ==> u[i] == gap[i];
    assert forall i :: 0 <= i < q ==> u[i] == x[i];
    assert u[|gap|] == Print(ps)[0];
    PrintStarts(ps, []);
    assert x == gap;
  }

  lemma AfterQuote(gap: string, ps: seq<Spaced>)
    requires ps != [] && ps[0].token.kind == TtStrLit
    ensures |gap| < |gap + Print(ps)|
    ensures (gap + Print(ps))[|gap| + 1..] == ps[0].token.lexeme + ("\"" + (ps[0].gap + Print(ps[1..])))
  {
    var y, g, more := ps[0].token.lexeme, ps[0].gap, Print(ps[1..]);
    Regroup(y, g, more);
    DropInto(gap, '"', y + ("\"" + (g + more)));
  }

  lemma Regroup(y: string, g: string, s: string)
    ensures "\"" + y + "\"" + g + s == ['"'] + (y + ("\"" + (g + s)))
  {
  }

  lemma DropInto(gap: string, c: char, s: string)
    ensures |gap| < |gap + ([c] + s)| && (gap + ([c] + s))[|gap| + 1..] == s
  {
  }

  lemma {:induction false} SkipInto(x: string, s: string)
    requires !Blank(x)
    ensures SkipSpace(x + s) != [] && SkipSpace(x + s)[0] in x
  {
    if IsSpace(x[0]) {
      var i :| 0 <= i < |x| && !IsSpace(x[i]);
      assert x[1..][i - 1] == x[i];
      assert (x + s)[1..] == x[1..] + s;
      SkipInto(x[1..], s);
    }
  }

  /** A word with nothing behind it but another token: the tokens do not come back. */
  lemma Swallowed(lead: string, ps: seq<Spaced>)
    requires Blank(lead) && Printable(ps) && |ps| > 1 && IsWord(ps[0].token) && ps[0].gap == []
    ensures LexAll(lead + Print(ps)) != (TokensOf(ps), true)
  {
    var more := Print(ps[1..]);
    PrintNonEmpty(ps[1..]);
    NothingBetween(ps);
    HeadAndTail(more);
    if IsAlpha(more[0]) {
      LetterSwallowed(lead, ps[0].token, more[0], more[1..], TokensOf(ps[1..]));
    } else {
      AlphaBegins(ps[1..]);
      TailSwallowed(ps[1..]);
      MarkSwallowed(lead, ps[0].token, more[0], more[1..], TokensOf(ps[1..]));
    }
  }

  lemma HeadAndTail(s: string)
    requires s != []
    ensures s == [s[0]] + s[1..]
  {
  }

  lemma PrintNonEmpty(ps: seq<Spaced>)
    requires Printable(ps) && ps != []
    ensures Print(ps) != []
  {
    PrintStarts(ps, []);
  }

  lemma AlphaBegins(ps: seq<Spaced>)
    requires Printable(ps) && ps != [] && Print(ps) != [] && !IsAlpha(Print(ps)[0])
    ensures !IsWord(ps[0].token)
  {
    PrintStarts(ps, []);
  }

  lemma LetterSwallowed(lead: string, t: Token, c: char, s: string, ts: seq<Token>)
    requires Blank(lead) && ValidToken(t) && IsWord(t) && IsAlpha(c)
    ensures LexAll(lead + (t.lexeme + ([c] + s))) != ([t] + ts, true)
  {
    LettersSwallowed(t.lexeme, c, s, lead);
    OtherFirst(lead + (t.lexeme + ([c] + s)), t, ts);
  }

  lemma MarkSwallowed(lead: string, t: Token, c: char, s: string, ts: seq<Token>)
    requires Blank(lead) && ValidToken(t) && IsWord(t) && !IsAlpha(c) && LexAll(s) != (ts, true)
    ensures LexAll(lead + (t.lexeme + ([c] + s))) != ([t] + ts, true)
  {
    WordEatsNext(t.lexeme, c, s, lead);
    FirstOff(lead + (t.lexeme + ([c] + s)), t, s, ts);
  }

  lemma NothingBetween(ps: seq<Spaced>)
    requires ps != [] && IsWord(ps[0].token) && ps[0].gap == []
    ensures Print(ps) == ps[0].token.lexeme + Print(ps[1..])
  {
    assert ps[0].token.lexeme + [] == ps[0].token.lexeme;
  }

  lemma TailSwallowed(ps: seq<Spaced>)
    requires Printable(ps) && ps != [] && !IsWord(ps[0].token)
    ensures Print(ps) != [] && LexAll(Print(ps)[1..]) != (TokensOf(ps), true)
  {
    var t, gap, more := ps[0].token, ps[0].gap, Print(ps[1..]);
    if t.kind == TtAssign {
      AfterEquals(gap, more);
      EqualsNeverBack(gap, ps[1..]);
    } else {
      AfterQuote([], ps);
      EmptyBefore(Print(ps));
      QuoteNeverBack(t.lexeme, gap, ps[1..]);
    }
  }

  lemma AfterEquals(g: string, s: string)
    ensures ("=" + g + s)[1..] == g + s
  {
  }

  lemma EmptyBefore(s: string)
    ensures [] + s == s
  {
  }

  /** Every word but a last one has white space behind it. */
  predicate WordsEnd(ps: seq<Spaced>) {
    forall i :: 0 <= i < |ps| - 1 && IsWord(ps[i].token) ==> ps[i].gap != []
  }

  /** Printed tokens are lexed back as they were, and the end is reached, if and only if every
      word that another token follows has white space behind it. */
  lemma {:induction false} RoundTrip(lead: string, ps: seq<Spaced>)
    requires Blank(lead) && Printable(ps)
    ensures LexAll(lead + Print(ps)) == (TokensOf(ps), true) <==> WordsEnd(ps)
    decreases |ps|
  {
    if ps == [] {
      SkipBlank(lead, []);
    } else if IsWord(ps[0].token) && ps[0].gap == [] {
      if |ps| == 1 {
        LexLastWord(ps[0].token, lead);
        assert Print(ps) == ps[0].token.lexeme;
        FirstOff(lead + Print(ps), ps[0].token, [], []);
      } else {
        Swallowed(lead, ps);
      }
    } else {
      var lead' := LexFirst(lead, ps);
      RoundTrip(lead', ps[1..]);
      FirstOff(lead + Print(ps), ps[0].token, lead' + Print(ps[1..]), TokensOf(ps[1..]));
      WordsEndTail(ps);
    }
  }

  lemma WordsEndTail(ps: seq<Spaced>)
    requires ps != [] && (IsWord(ps[0].token) ==> ps[0].gap != [])
    ensures WordsEnd(ps) <==> WordsEnd(ps[1..])
  {
    if WordsEnd(ps[1..]) {
      forall i | 0 <= i < |ps| - 1 && IsWord(ps[i].token) ensures ps[i].gap != [] {
        assert i > 0 ==> ps[i] == ps[1..][i - 1];
      }
    }
  }

  // ----- the lexer in memory ------------------------------------------------

  /** The lexeme and the buffer have nothing in common. */
  ghost predicate Apart(d: DStr.DStr, b: Buf)
    reads d
  {
    d !in Repr(b) && d.short !in Repr(b) && d.cur !in Repr(b)
  }

  ghost predicate Ready(d: DStr.DStr, b: Buf)
    reads d, d.cur, Repr(b)
  {
    d.Valid() && DStr.NulFree(d.Contents()) && Valid(b) && Apart(d, b)
  }

  method GetNext(d: DStr.DStr, b: Buf) returns (c: int)
    requires Ready(d, b)
    modifies Repr(b)
    ensures Ready(d, b) && AtHand(c, b, old(Stream(b)))
  {
    c := Getc(b);
  }

  /** Push the character at hand and take the next one. */
  method Absorb(c: int, d: DStr.DStr, b: Buf, ghost left: string) returns (c': int)
    requires Ready(d, b) && AtHand(c, b, left) && c != BUF_EOF
    modifies d, d.cur, Repr(b)
    ensures Ready(d, b) && left != [] && AtHand(c', b, left[1..])
    ensures d.Contents() == old(d.Contents()) + [left[0]] && (d.cur == old(d.cur) || fresh(d.cur))
  {
    d.Push(c as char);
    c' := GetNext(d, b);
  }

  /** The letters so far are w, and the rest of the word is ahead. */
  ghost predicate InWord(s: string, w: string, left: string) {
    s == w + left && Word(s) == w + Word(left)
  }

  lemma WordStep(s: string, w: string, left: string)
    requires InWord(s, w, left) && left != [] && IsAlpha(left[0])
    ensures InWord(s, w + [left[0]], left[1..])
  {
    assert w + left == (w + [left[0]]) + left[1..];
    assert w + ([left[0]] + Word(left[1..])) == (w + [left[0]]) + Word(left[1..]);
  }

  lemma WordDone(s: string, w: string, left: string)
    requires InWord(s, w, left) && (left == [] || !IsAlpha(left[0]))
    ensures w == Word(s) && left == s[|w|..]
  {
  }

  /** The letters of a word go to the lexeme until a character that is not one has been taken. */
  method TakeLetters(c0: int, d: DStr.DStr, b: Buf, ghost s: string)
    requires Ready(d, b) && AtHand(c0, b, s) && d.Contents() == []
    modifies d, d.cur, Repr(b)
    ensures Ready(d, b) && d.Contents() == Word(s) && Stream(b) == Rest(s[|Word(s)|..])
    ensures d.cur == old(d.cur) || fresh(d.cur)
  {
    var c := c0;
    ghost var left := s;
    assert InWord(s, d.Contents(), left);
    while c != BUF_EOF && IsAlpha(c as char)
      invariant Ready(d, b) && AtHand(c, b, left) && (d.cur == old(d.cur) || fresh(d.cur))
      invariant InWord(s, d.Contents(), left)
      decreases |left|
    {
      WordStep(s, d.Contents(), left);
      c := Absorb(c, d, b, left);
      left := left[1..];
    }
    WordDone(s, d.Contents(), left);
  }

  /** id */
  method Id(c: int, d: DStr.DStr, b: Buf, ghost s: string) returns (kind: Kind)
    requires Ready(d, b) && AtHand(c, b, s) && d.Contents() == []
    modifies d, d.cur, Repr(b)
    ensures Ready(d, b) && d.Contents() == Word(s) && Stream(b) == Rest(s[|Word(s)|..])
    ensures kind == WordKind(Word(s)) && (d.cur == old(d.cur) || fresh(d.cur))
  {
    TakeLetters(c, d, b, s);
    var w := d.CStr();
    kind := Keyword(w);
  }

  method Keyword(w: string) returns (kind: Kind)
    ensures kind == WordKind(w)
  {
    KeywordExact(w);
    var hash := Hashgen.ComputeStrHash(w);
    kind := if KWORDS[hash % |KWORDS|] == Hashgen.Taken(w) then TtStr else TtId;
  }

  /** The characters of the literal so far are x, and `left` is ahead. */
  ghost predicate InLiteral(s: string, x: string, left: string) {
    s == x + left && QuoteAt(s) == |x| + QuoteAt(left)
  }

  lemma LiteralStep(s: string, x: string, left: string)
    requires InLiteral(s, x, left) && left != [] && left[0] != '"'
    ensures InLiteral(s, x + [left[0]], left[1..])
  {
    assert x + left == (x + [left[0]]) + left[1..];
  }

  lemma LiteralDone(s: string, x: string, left: string)
    requires InLiteral(s, x, left) && (left == [] || left[0] == '"')
    ensures QuoteAt(s) == |x| && x == s[..|x|] && left == s[|x|..]
    ensures left != [] ==> |x| < |s| && Rest(left) == s[|x| + 1..]
  {
  }

  /** The characters of a literal go to the lexeme until a quote or the end has been taken. */
  method TakeLiteral(d: DStr.DStr, b: Buf, ghost s: string) returns (c: int, ghost left: string)
    requires Ready(d, b) && d.Contents() == [] && Stream(b) == s
    modifies d, d.cur, Repr(b)
    ensures Ready(d, b) && (d.cur == old(d.cur) || fresh(d.cur))
    ensures AtHand(c, b, left) && InLiteral(s, d.Contents(), left) && (left == [] || left[0] == '"')
  {
    left := s;
    c := GetNext(d, b);
    assert InLiteral(s, d.Contents(), left);
    while c != BUF_EOF && c != '"' as int
      invariant Ready(d, b) && AtHand(c, b, left) && (d.cur == old(d.cur) || fresh(d.cur))
      invariant InLiteral(s, d.Contents(), left)
      decreases |left|
    {
      LiteralStep(s, d.Contents(), left);
      c := Absorb(c, d, b, left);
      left := left[1..];
    }
  }

  /** str: the text up to the closing quote, without which the program ends. */
  method Str(d: DStr.DStr, b: Buf, ghost s: string) returns (ok: bool)
    requires Ready(d, b) && d.Contents() == [] && Stream(b) == s
    modifies d, d.cur, Repr(b)
    ensures Ready(d, b) && (d.cur == old(d.cur) || fresh(d.cur))
    ensures ok <==> QuoteAt(s) < |s|
    ensures ok ==> d.Contents() == s[..QuoteAt(s)] && Stream(b) == s[QuoteAt(s) + 1..]
  {
    var c;
    ghost var left;
    c, left := TakeLiteral(d, b, s);
    LiteralDone(s, d.Contents(), left);
    ok := c == '"' as int;
  }

  /** Skip white space; the character after it is at hand. */
  method SkipSpaces(d: DStr.DStr, b: Buf) returns (c: int)
    requires Ready(d, b)
    modifies Repr(b)
    ensures Ready(d, b) && AtHand(c, b, SkipSpace(old(Stream(b))))
  {
    ghost var s := Stream(b);
    ghost var left := s;
    c := GetNext(d, b);
    while c != BUF_EOF && IsSpace(c as char)
      invariant Ready(d, b) && AtHand(c, b, left) && SkipSpace(left) == SkipSpace(s)
      decreases |left|
    {
      left := left[1..];
      c := GetNext(d, b);
    }
  }

  /** lex_next on the lexeme and the buffer: the token LexOne describes, or the end of the program. */
  method NextToken(d: DStr.DStr, b: Buf) returns (ok: bool, kind: Kind)
    requires Ready(d, b)
    modifies d, d.short, d.cur, Repr(b)
    ensures Ready(d, b) && (d.cur == old(d.cur) || d.cur == d.short || fresh(d.cur))
    ensures match LexOne(old(Stream(b)))
            case Bad => !ok
            case Got(t, rest) => ok && kind == t.kind && d.Contents() == t.lexeme && Stream(b) == rest
  {
    ghost var s := SkipSpace(Stream(b));
    var c := SkipSpaces(d, b);
    d.Clear();
    ok, kind := TokenHere(c, d, b, s);
  }

  /** What follows from the first character that is no white space. */
  method TokenHere(c: int, d: DStr.DStr, b: Buf, ghost s: string) returns (ok: bool, kind: Kind)
    requires Ready(d, b) && AtHand(c, b, s) && d.Contents() == []
    modifies d, d.cur, Repr(b)
    ensures Ready(d, b) && (d.cur == old(d.cur) || fresh(d.cur))
    ensures match LexHere(s)
            case Bad => !ok
            case Got(t, rest) => ok && kind == t.kind && d.Contents() == t.lexeme && Stream(b) == rest
  {
    ok, kind := true, TtEof;
    if c == BUF_EOF {
    } else if c == '"' as int {
      ok := Str(d, b, s[1..]);
      kind := TtStrLit;
    } else if c == '=' as int {
      kind := TtAssign;
    } else if IsLower(c as char) {
      kind := Id(c, d, b, s);
    } else {
      ok := false;
    }
  }

  class Lex {
    const lexeme: DStr.DStr
    const buf: Buf
    var kind: Kind

    ghost predicate Valid()
      reads this, lexeme, lexeme.cur, Repr(buf)
    {
      Ready(lexeme, buf) && this !in Repr(buf)
    }

    /** lex_init, up to its first lex_next. */
    constructor (b: Buf)
      requires Buffers.Valid(b)
      ensures Valid() && buf == b && Stream(buf) == old(Stream(b))
      ensures fresh(lexeme) && fresh(lexeme.short) && fresh(lexeme.cur)
    {
      var d := new DStr.DStr();
      lexeme, buf, kind := d, b, TtEof;
    }

    /** lex_next: the token LexOne describes, or a usage error that ends the program. */
    method Next() returns (ok: bool)
      requires Valid()
      modifies this, lexeme, lexeme.short, lexeme.cur, Repr(buf)
      ensures Valid() && (lexeme.cur == old(lexeme.cur) || lexeme.cur == lexeme.short || fresh(lexeme.cur))
      ensures match LexOne(old(Stream(buf)))
              case Bad => !ok
              case Got(t, rest) => ok && Token(kind, lexeme.Contents()) == t && Stream(buf) == rest
    {
      ok, kind := NextToken(lexeme, buf);
    }
  }

  /** What is still to come, given what came out. */
  ghost predicate Came(s: string, out: seq<Token>, left: string) {
    LexAll(s) == (out + LexAll(left).0, LexAll(left).1)
  }

  lemma CameStep(s: string, out: seq<Token>, left: string)
    requires Came(s, out, left)
    ensures match LexOne(left)
            case Bad => LexAll(s) == (out, false)
            case Got(t, rest) => if t.kind == TtEof then LexAll(s) == (out, true)
                                 else |rest| < |left| && Came(s, out + [t], rest)
  {
    LexOneShrinks(left);
    var r := LexOne(left);
    if r.Got? && r.token.kind != TtEof {
      assert out + ([r.token] + LexAll(r.rest).0) == (out + [r.token]) + LexAll(r.rest).0;
    } else {
      assert out + [] == out;
    }
  }

  /** The driver's loop: every token of the stream, in order. What comes out depends on the
      stream alone, whichever buffer gives it and however it is cut into chunks. */
  method Run(b: Buf) returns (out: seq<Token>, ok: bool)
    requires Buffers.Valid(b)
    modifies Repr(b)
    ensures (out, ok) == LexAll(old(Stream(b)))
  {
    ghost var s := Stream(b);
    var l := new Lex(b);
    out := [];
    ghost var left := s;
    assert out + LexAll(s).0 == LexAll(s).0;
    CameStep(s, out, left);
    ok := l.Next();
    while ok && l.kind != TtEof
      invariant l.Valid() && l.buf == b && fresh(l) && fresh(l.lexeme) && fresh(l.lexeme.short) && fresh(l.lexeme.cur)
      invariant Came(s, out, left)
      invariant if ok then LexOne(left) == Got(Token(l.kind, l.lexeme.Contents()), Stream(b)) else LexOne(left).Bad?
      decreases ok && l.kind != TtEof, |left|
    {
      CameStep(s, out, left);
      var text := l.lexeme.CStr();
      out := out + [Token(l.kind, text)];
      left := Stream(b);
      ok := l.Next();
    }
    CameStep(s, out, left);
  }
}
