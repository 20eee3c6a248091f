/**
 The texts of names, strings and regular expressions: how they are written
 (influxql/parser.go, `QuoteString` and `QuoteIdent`; influxql/ast.go,
 `RegexLiteral.String`) and how they are scanned (influxql/scanner.go).
 */
module Lexer {
  import opened Values
  import opened Ast
  import G = TimeGrid

  // ----- Reading characters -----

  /** `reader.read`: a carriage return, alone or before a new line, is read as a new line. */
  function Runes(s: string): string
    decreases |s|
  {
    if s == "" then ""
    else if s[0] == '\r' then ['\n'] + Runes(if |s| > 1 && s[1] == '\n' then s[2..] else s[1..])
    else [s[0]] + Runes(s[1..])
  }

  lemma RunesStep(c: char, s: string)
    requires c != '\r'
    ensures Runes([c] + s) == [c] + Runes(s)
  {
    assert ([c] + s)[1..] == s;
  }

  lemma ReturnIsLine(s: string)
    ensures Runes(['\r'] + s) != "" && Runes(['\r'] + s)[0] == '\n'
  {
  }

  lemma {:induction false} RunesShrink(s: string)
    ensures |Runes(s)| <= |s|
    decreases |s|
  {
    if s != "" {
      RunesShrink(if s[0] == '\r' && |s| > 1 && s[1] == '\n' then s[2..] else s[1..]);
    }
  }

  /** What was scanned, and what is left; `Bad` for any error. */
  datatype Scanned = Bad | Literal(text: string, rest: string)

  function Cons(c: char, r: Scanned): Scanned {
    if r.Bad? then Bad else Literal([c] + r.text, r.rest)
  }

  // ----- Strings -----

  const NUL: char := '\0'

  /** What a backslash and this character stand for in a string. */
  function Unescaped(c: char): Option<char> {
    if c == 'n' then Some('\n') else if c == '\\' || c == '"' || c == '\'' then Some(c) else None
  }

  /** A string after its opening quote. */
  function StringBody(r: string, ending: char): Scanned
    decreases |r|
  {
    if r == "" then Bad
    else if r[0] == ending then Literal("", r[1..])
    else if r[0] == NUL || r[0] == '\n' then Bad
    else if r[0] == '\\' then
      if |r| > 1 && Unescaped(r[1]).Some? then Cons(Unescaped(r[1]).value, StringBody(r[2..], ending)) else Bad
    else Cons(r[0], StringBody(r[1..], ending))
  }

  function Prefixed(done: string, r: Scanned): Scanned {
    if r.Bad? then Bad else Literal(done + r.text, r.rest)
  }

  lemma PrefixedCons(done: string, c: char, r: Scanned)
    ensures Prefixed(done + [c], r) == Prefixed(done, Cons(c, r))
  {
    if r.Literal? {
      assert done + [c] + r.text == done + ([c] + r.text);
    }
  }

  /** `ScanString`, after the opening quote. */
  method ScanString(r: string, ending: char) returns (s: Scanned)
    ensures s == StringBody(r, ending)
  {
    var buf, i := "", 0;
    assert r[0..] == r;
    assert StringBody(r, ending) == Prefixed("", StringBody(r, ending));
    while i < |r|
      invariant 0 <= i <= |r| && StringBody(r, ending) == Prefixed(buf, StringBody(r[i..], ending))
    {
      var ch0 := r[i];
      assert r[i..][0] == ch0 && r[i..][1..] == r[i + 1..];
      if ch0 == ending {
        return Literal(buf, r[i + 1..]);
      } else if ch0 == NUL || ch0 == '\n' {
        return Bad;
      } else if ch0 == '\\' {
        if i + 1 == |r| {
          return Bad;
        }
        var ch1 := r[i + 1];
        assert r[i..][1] == ch1 && r[i..][2..] == r[i + 2..];
        var c;
        if ch1 == 'n' {
          c := '\n';
        } else if ch1 == '\\' || ch1 == '"' || ch1 == '\'' {
          c := ch1;
        } else {
          return Bad;
        }
        PrefixedCons(buf, c, StringBody(r[i + 2..], ending));
        buf := buf + [c];
        i := i + 2;
      } else {
        PrefixedCons(buf, ch0, StringBody(r[i + 1..], ending));
        buf := buf + [ch0];
        i := i + 1;
      }
    }
    return Bad;
  }

  /** The replacer of `QuoteString` and `QuoteIdent`: new lines, backslashes and the quote are escaped. */
  function Escaped(s: string, quote: char): string {
    if s == "" then ""
    else (if s[0] == '\n' then ['\\', 'n'] else if s[0] == '\\' || s[0] == quote then ['\\', s[0]] else [s[0]]) + Escaped(s[1..], quote)
  }

  predicate IsQuote(c: char) {
    c == '\'' || c == '"'
  }

  function Quoted(s: string, quote: char): string {
    [quote] + Escaped(s, quote) + [quote]
  }

  lemma Regroup3(a: string, b: string, c: string)
    ensures (a + b) + c == a + (b + c)
  {
  }

  lemma CleanStep(s: string)
    requires s != ""
    ensures Clean(s) <==> s[0] != '\r' && s[0] != NUL && Clean(s[1..])
  {
    assert forall i :: 1 <= i < |s| ==> s[i] == s[1..][i - 1];
    assert forall i :: 0 <= i < |s[1..]| ==> s[1..][i] == s[i + 1];
  }

  lemma PlainReads(c: char, tail: string, quote: char)
    requires IsQuote(quote) && c != '\n' && c != '\\' && c != quote
    ensures StringBody(Runes([c] + tail), quote) == if c == '\r' || c == NUL then Bad else Cons(c, StringBody(Runes(tail), quote))
  {
    if c == '\r' {
      ReturnIsLine(tail);
    } else {
      RunesStep(c, tail);
      assert ([c] + Runes(tail))[1..] == Runes(tail);
    }
  }

  lemma SpecialReads(e: char, tail: string, quote: char)
    requires IsQuote(quote) && Unescaped(e).Some?
    ensures StringBody(Runes(['\\', e] + tail), quote) == Cons(Unescaped(e).value, StringBody(Runes(tail), quote))
  {
    assert ['\\', e] + tail == ['\\'] + ([e] + tail);
    RunesStep('\\', [e] + tail);
    RunesStep(e, tail);
    EscapeReads(e, Runes(tail), quote);
  }

  /** How the first character of a string is scanned. */
  lemma QuoteStep(s: string, quote: char, rest: string)
    requires IsQuote(quote) && s != ""
    ensures var tail := Escaped(s[1..], quote) + ([quote] + rest);
            var r := StringBody(Runes(Escaped(s, quote) + ([quote] + rest)), quote);
      r == if s[0] == '\r' || s[0] == NUL then Bad else Cons(s[0], StringBody(Runes(tail), quote))
  {
    hide StringBody, Runes;
    var c, tail := s[0], Escaped(s[1..], quote) + ([quote] + rest);
    if c == '\n' || c == '\\' || c == quote {
      var e := if c == '\n' then 'n' else c;
      Regroup3(['\\', e], Escaped(s[1..], quote), [quote] + rest);
      SpecialReads(e, tail, quote);
    } else {
      Regroup3([c], Escaped(s[1..], quote), [quote] + rest);
      PlainReads(c, tail, quote);
    }
  }

  /** Writing a string and scanning it gives it back if and only if it is clean; otherwise scanning fails. */
  lemma {:induction false} QuotedReads(s: string, quote: char, rest: string)
    requires IsQuote(quote)
    ensures StringBody(Runes(Escaped(s, quote) + ([quote] + rest)), quote) == if Clean(s) then Literal(s, Runes(rest)) else Bad
  {
    if s == "" {
      assert "" + ([quote] + rest) == [quote] + rest;
      RunesStep(quote, rest);
    } else {
      QuotedReads(s[1..], quote, rest);
      QuoteStep(s, quote, rest);
      CleanStep(s);
      assert s == [s[0]] + s[1..];
      hide StringBody, Runes, Escaped, Clean;
    }
  }

  lemma EscapeReads(e: char, r: string, quote: char)
    requires IsQuote(quote) && Unescaped(e).Some?
    ensures StringBody(['\\'] + ([e] + r), quote) == Cons(Unescaped(e).value, StringBody(r, quote))
  {
    var t := ['\\'] + ([e] + r);
    assert t[0] == '\\' && t[1] == e && t[2..] == r;
  }

  // ----- Regular expressions -----

  /** A regex after its opening slash: only the slash can be escaped, and any other backslash stands for itself. */
  function RegexBody(r: string): Scanned
    decreases |r|
  {
    if r == "" then Bad
    else if r[0] == '/' then Literal("", r[1..])
    else if r[0] == NUL || r[0] == '\n' then Bad
    else if r[0] == '\\' then
      if |r| == 1 || r[1] == NUL then Bad
      else if r[1] == '/' then Cons('/', RegexBody(r[2..]))
      else Cons('\\', RegexBody(r[1..]))
    else Cons(r[0], RegexBody(r[1..]))
  }

  /** `ScanDelimited` as `ScanRegex` calls it, after the opening slash. */
  method ScanRegex(r: string) returns (s: Scanned)
    ensures s == RegexBody(r)
  {
    var buf, i := "", 0;
    assert r[0..] == r;
    assert RegexBody(r) == Prefixed("", RegexBody(r));
    while i < |r|
      invariant 0 <= i <= |r| && RegexBody(r) == Prefixed(buf, RegexBody(r[i..]))
    {
      var ch0 := r[i];
      assert r[i..][0] == ch0 && r[i..][1..] == r[i + 1..];
      if ch0 == '/' {
        return Literal(buf, r[i + 1..]);
      } else if ch0 == NUL || ch0 == '\n' {
        return Bad;
      } else if ch0 == '\\' {
        if i + 1 == |r| || r[i + 1] == NUL {
          return Bad;
        }
        if r[i + 1] == '/' {
          assert r[i..][2..] == r[i + 2..];
          PrefixedCons(buf, '/', RegexBody(r[i + 2..]));
          buf := buf + ['/'];
          i := i + 2;
        } else {
          PrefixedCons(buf, '\\', RegexBody(r[i + 1..]));
          buf := buf + ['\\'];
          i := i + 1;
        }
      } else {
        PrefixedCons(buf, ch0, RegexBody(r[i + 1..]));
        buf := buf + [ch0];
        i := i + 1;
      }
    }
    return Bad;
  }

  /** Every slash with a backslash before it. */
  function SlashEscaped(re: string): string {
    if re == "" then "" else (if re[0] == '/' then ['\\', '/'] else [re[0]]) + SlashEscaped(re[1..])
  }

  function RegexWritten(re: string): string {
    ['/'] + SlashEscaped(re) + ['/']
  }

  lemma SlashEscapedStart(re: string, rest: string)
    requires re != ""
    ensures var t := SlashEscaped(re) + (['/'] + rest);
      t != "" && t[0] == (if re[0] == '/' then '\\' else re[0])
  {
  }

  lemma RegexTextStep(re: string)
    requires |re| > 1
    ensures RegexText(re) <==> re[0] != '\r' && re[0] != NUL && re[0] != '\n' && RegexText(re[1..])
  {
    assert forall i :: 1 <= i < |re| ==> re[i] == re[1..][i - 1];
    assert forall i :: 0 <= i < |re[1..]| ==> re[1..][i] == re[i + 1];
  }

  lemma RunesStart(s: string)
    requires s != ""
    ensures Runes(s) != "" && Runes(s)[0] == if s[0] == '\r' then '\n' else s[0]
  {
  }

  lemma ConsIs(c: char, r: Scanned, s: string, rest: string)
    requires s != ""
    ensures Cons(c, r) == Literal(s, rest) <==> c == s[0] && r == Literal(s[1..], rest)
  {
    assert s == [s[0]] + s[1..];
    if r.Literal? {
      assert ([c] + r.text)[0] == c && ([c] + r.text)[1..] == r.text;
    }
  }

  lemma SlashReads(tail: string)
    ensures RegexBody(Runes(['\\', '/'] + tail)) == Cons('/', RegexBody(Runes(tail)))
  {
    assert ['\\', '/'] + tail == ['\\'] + (['/'] + tail);
    RunesStep('\\', ['/'] + tail);
    RunesStep('/', tail);
    var t := ['\\'] + (['/'] + Runes(tail));
    assert t[0] == '\\' && t[1] == '/' && t[2..] == Runes(tail);
  }

  /** How the first character of a regex is scanned. */
  lemma RegexStep(re: string, rest: string)
    requires re != ""
    ensures var tail := SlashEscaped(re[1..]) + (['/'] + rest);
            var r := RegexBody(Runes(SlashEscaped(re) + (['/'] + rest)));
      if re[0] == '\r' || re[0] == '\n' || re[0] == NUL then r == Bad
      else if re == "\\" then r == Cons('/', RegexBody(Runes(rest)))
      else r == Cons(re[0], RegexBody(Runes(tail)))
  {
    var after := ['/'] + rest;
    var c, tail := re[0], SlashEscaped(re[1..]) + after;
    if c == '/' {
      Regroup3(['\\', '/'], SlashEscaped(re[1..]), after);
      SlashReads(tail);
      hide RegexBody, Runes;
    } else {
      Regroup3([c], SlashEscaped(re[1..]), after);
      if c == '\r' {
        ReturnIsLine(tail);
      } else {
        RunesStep(c, tail);
        var t := [c] + Runes(tail);
        assert t[0] == c && t[1..] == Runes(tail);
        if c == '\\' {
          BackslashReads(re, rest);
          assert |re| == 1 ==> re == "\\";
        }
      }
    }
  }

  /** Writing a regex and scanning it gives it back if and only if its text is one without new lines that does not end in a backslash. */
  lemma {:induction false} RegexReads(re: string, rest: string)
    ensures RegexBody(Runes(SlashEscaped(re) + (['/'] + rest))) == Literal(re, Runes(rest)) <==> RegexText(re)
  {
    if re == "" {
      assert "" + (['/'] + rest) == ['/'] + rest;
      RunesStep('/', rest);
      assert Runes(['/'] + rest)[1..] == Runes(rest);
    } else {
      RegexReads(re[1..], rest);
      RegexStep(re, rest);
      if |re| > 1 {
        RegexTextStep(re);
      } else {
        assert re[1..] == "";
      }
      hide RegexBody, Runes, SlashEscaped, Cons;
      ConsIs(re[0], RegexBody(Runes(SlashEscaped(re[1..]) + (['/'] + rest))), re, Runes(rest));
      ConsIs('/', RegexBody(Runes(rest)), re, Runes(rest));
    }
  }

  lemma BackslashReads(re: string, rest: string)
    requires re != "" && re[0] == '\\'
    ensures var tail := SlashEscaped(re[1..]) + (['/'] + rest);
            var r := RegexBody(['\\'] + Runes(tail));
      if |re| == 1 then r == Cons('/', RegexBody(Runes(rest))) else r == Cons('\\', RegexBody(Runes(tail)))
  {
    var tail := SlashEscaped(re[1..]) + (['/'] + rest);
    var t := ['\\'] + Runes(tail);
    assert t[0] == '\\' && t[1..] == Runes(tail);
    if |re| == 1 {
      assert tail == ['/'] + rest;
      RunesStep('/', rest);
      assert t[1] == '/' && t[2..] == Runes(rest);
    } else {
      SlashEscapedStart(re[1..], rest);
      RunesStart(tail);
      assert t[1] == Runes(tail)[0];
    }
  }

  // ----- Names -----

  predicate IsIdentChar(c: char) {
    IsIdentFirst(c) || IsDigit(c)
  }

  /** The characters of names, and with which of them a name may start. */
  lemma IdentCharsExact(c: char)
    ensures IsIdentFirst(c) <==> c in "abcdefghijklmnopqrstuvwxyz" || c in "ABCDEFGHIJKLMNOPQRSTUVWXYZ" || c == '_'
    ensures IsIdentChar(c) <==> IsIdentFirst(c) || c in "0123456789"
  {
    LetterAt("abcdefghijklmnopqrstuvwxyz", 'a', c);
    LetterAt("ABCDEFGHIJKLMNOPQRSTUVWXYZ", 'A', c);
    LetterAt("0123456789", '0', c);
  }

  lemma LetterAt(s: string, first: char, c: char)
    requires forall i :: 0 <= i < |s| ==> s[i] as int == first as int + i
    ensures c in s <==> 0 <= c as int - first as int < |s|
  {
    if 0 <= c as int - first as int < |s| {
      assert s[c as int - first as int] == c;
    }
  }

  /** `IdentNeedsQuotes`. */
  predicate NeedsQuotes(n: string) {
    Reserved(Lower(n)) || exists i :: 0 <= i < |n| && !(if i == 0 then IsIdentFirst(n[i]) else IsIdentChar(n[i]))
  }

  /** `QuoteIdent` of one segment. */
  function NameWritten(n: string): string {
    if NeedsQuotes(n) then Quoted(n, '"') else Escaped(n, '"')
  }

  /** The identifier characters at the head of a text. */
  function BareHead(r: string): string {
    if r != "" && IsIdentChar(r[0]) then [r[0]] + BareHead(r[1..]) else ""
  }

  lemma {:induction false} BareHeadIs(r: string)
    ensures |BareHead(r)| <= |r| && r[..|BareHead(r)|] == BareHead(r)
    ensures forall i :: 0 <= i < |BareHead(r)| ==> IsIdentChar(BareHead(r)[i])
  {
    if r != "" && IsIdentChar(r[0]) {
      BareHeadIs(r[1..]);
      var n := |BareHead(r[1..])|;
      assert r[..n + 1] == [r[0]] + r[1..][..n];
    }
  }

  /** A token that starts like a name. */
  datatype NameToken = NoName | Keyword(word: string) | Name(text: string, rest: string)

  /**
   `Scan` where a name may start: identifier characters, and if a quote follows them
   the quoted name instead. A bare name is looked up among the keywords.
   */
  function ScanName(r: string): NameToken {
    if r == "" || !(IsIdentFirst(r[0]) || r[0] == '"') then NoName
    else
      var head := BareHead(r);
      BareHeadIs(r);
      var rest := r[|head|..];
      if rest != "" && rest[0] == '"' then
        match StringBody(rest[1..], '"')
        case Bad => NoName
        case Literal(text, rest') => Name(text, rest')
      else if Reserved(Lower(head)) then Keyword(head)
      else Name(head, rest)
  }

  /** What may follow a name: not another character of a name, no quote and no line end. */
  predicate Ends(rest: string) {
    rest == "" || !(IsIdentChar(rest[0]) || rest[0] in {'"', '\r', '\n'})
  }

  lemma {:induction false} PlainRunes(n: string, rest: string)
    requires forall i :: 0 <= i < |n| ==> IsIdentChar(n[i])
    ensures Runes(n + rest) == n + Runes(rest)
  {
    if n == "" {
      assert n + rest == rest;
    } else {
      PlainRunes(n[1..], rest);
      assert n + rest == [n[0]] + (n[1..] + rest);
      RunesStep(n[0], n[1..] + rest);
      assert n == [n[0]] + n[1..];
    }
  }

  lemma {:induction false} BareHeadOf(n: string, rest: string)
    requires (forall i :: 0 <= i < |n| ==> IsIdentChar(n[i])) && (rest == "" || !IsIdentChar(rest[0]))
    ensures BareHead(n + rest) == n
  {
    if n == "" {
      assert n + rest == rest;
    } else {
      BareHeadOf(n[1..], rest);
      assert (n + rest)[1..] == n[1..] + rest;
      assert n == [n[0]] + n[1..];
    }
  }

  /** A bare name, as `DISTINCT` and calls write it, is scanned as itself. */
  lemma BareReads(v: string, rest: string)
    requires Bare(v) && Ends(rest)
    ensures ScanName(Runes(v + rest)) == Name(v, Runes(rest))
  {
    hide Lower, Reserved;
    PlainRunes(v, rest);
    if rest != "" {
      RunesStart(rest);
    }
    BareHeadOf(v, Runes(rest));
    var r := v + Runes(rest);
    assert r[|v|..] == Runes(rest) && r[0] == v[0];
  }

  lemma {:induction false} PlainEscaped(n: string)
    requires forall i :: 0 <= i < |n| ==> IsIdentChar(n[i])
    ensures Escaped(n, '"') == n
  {
    if n != "" {
      PlainEscaped(n[1..]);
      assert n == [n[0]] + n[1..];
    }
  }

  lemma EmptyIsNoWord()
    ensures !Reserved("")
  {
  }

  lemma EmptyNeedsNone()
    ensures !NeedsQuotes("")
  {
    EmptyIsNoWord();
    hide Reserved;
    assert Lower("") == "";
  }

  lemma UnquotedIsBare(n: string)
    requires !NeedsQuotes(n) && n != ""
    ensures Bare(n) && Clean(n) && Escaped(n, '"') == n
  {
    hide Lower, Reserved;
    assert forall i :: 0 <= i < |n| ==> IsIdentChar(n[i]);
    PlainEscaped(n);
  }

  /** Writing a name and scanning it gives it back if and only if it is clean and not empty. */
  lemma NameReads(n: string, rest: string)
    requires Ends(rest)
    ensures ScanName(Runes(NameWritten(n) + rest)) == Name(n, Runes(rest)) <==> n != "" && Clean(n)
  {
    EmptyNeedsNone();
    if NeedsQuotes(n) {
      QuotedNameReads(n, rest);
      hide *;
    } else if n == "" {
      assert NameWritten(n) + rest == rest;
      NothingRead(rest);
      hide *;
    } else {
      UnquotedIsBare(n);
      BareReads(n, rest);
      assert NameWritten(n) == n;
      hide *;
    }
  }

  lemma NothingRead(rest: string)
    requires Ends(rest)
    ensures ScanName(Runes(rest)) == NoName
  {
    hide Lower, Reserved;
    if rest != "" {
      RunesStart(rest);
    }
  }

  lemma QuotedNameReads(n: string, rest: string)
    ensures var t := ScanName(Runes(Quoted(n, '"') + rest));
      t == if Clean(n) then Name(n, Runes(rest)) else NoName
  {
    hide Lower, Reserved;
    var tail := Escaped(n, '"') + (['"'] + rest);
    assert Quoted(n, '"') + rest == ['"'] + tail;
    RunesStep('"', tail);
    QuotedReads(n, '"', rest);
    var r := ['"'] + Runes(tail);
    assert r[0] == '"' && r[1..] == Runes(tail) && BareHead(r) == "" && r[0..] == r;
  }

  lemma {:induction false} LiteralShrinks(r: string, ending: char)
    ensures var s := StringBody(r, ending);
      s.Literal? ==> |s.text| + |s.rest| < |r|
    decreases |r|
  {
    if r != "" && r[0] != ending {
      if r[0] == '\\' {
        if |r| > 1 {
          LiteralShrinks(r[2..], ending);
        }
      } else {
        LiteralShrinks(r[1..], ending);
      }
    }
  }

  lemma {:induction false} RunesSplit(a: string, b: string)
    requires b == "" || b[0] != '\n'
    ensures Runes(a + b) == Runes(a) + Runes(b)
    decreases |a|
  {
    if a == "" {
      assert a + b == b;
    } else {
      var n := if a[0] == '\r' && |a| > 1 && a[1] == '\n' then 2 else 1;
      assert (a + b)[n..] == a[n..] + b;
      RunesSplit(a[n..], b);
    }
  }

  /** A name written without quotes is scanned as itself if and only if it is bare. */
  lemma BareReadsExact(v: string, rest: string)
    requires Ends(rest)
    ensures ScanName(Runes(v + rest)) == Name(v, Runes(rest)) <==> Bare(v)
  {
    hide Lower, Reserved;
    if Bare(v) {
      BareReads(v, rest);
    }
    if ScanName(Runes(v + rest)) == Name(v, Runes(rest)) {
      RunesSplit(v, rest);
      RunesShrink(v);
      ScannedIsBare(Runes(v + rest), v, Runes(rest));
    }
  }

  lemma ScannedIsBare(r: string, v: string, rest: string)
    requires ScanName(r) == Name(v, rest) && |r| <= |v| + |rest|
    ensures Bare(v)
  {
    hide Lower, Reserved;
    BareHeadIs(r);
    var left := r[|BareHead(r)|..];
    if left != "" && left[0] == '"' {
      LiteralShrinks(left[1..], '"');
      assert false;
    }
    assert BareHead(r) == v && r[..|v|] == v && r[0] == v[0];
  }

  /** The name of a call, before its parenthesis, is scanned as itself, or as the keyword for `distinct`, if and only if it can be written down. */
  lemma CallNameReads(f: string, rest: string)
    ensures var t := ScanName(Runes(f + (['('] + rest)));
      WritableName(f) <==> t == Name(f, Runes(['('] + rest)) || (f == "distinct" && t == Keyword("distinct"))
  {
    BareReadsExact(f, ['('] + rest);
    if f == "distinct" {
      DistinctReads(rest);
    }
    hide ScanName, Bare, Runes;
  }

  lemma DistinctReads(rest: string)
    ensures ScanName(Runes("distinct" + (['('] + rest))) == Keyword("distinct")
  {
    var f, after := "distinct", ['('] + rest;
    PlainRunes(f, after);
    RunesStep('(', rest);
    BareHeadOf(f, Runes(after));
    var r := f + Runes(after);
    assert r[|f|..] == Runes(after) && r[0] == 'd';
    assert Lower(f) == f && Reserved(f);
  }

  // ----- Leaves -----

  /** The text of a leaf that is written with quotes or slashes, or as a bare name. */
  function LeafText(e: Expr): string
    requires e.VarRef? || e.String? || e.Regex? || e.Distinct?
  {
    match e
    case VarRef(n) => NameWritten(n)
    case String(s) => Quoted(s, '\'')
    case Regex(re) => RegexWritten(re)
    case Distinct(v) => v
  }

  /** The text, at the end of a query, scans as the leaf it was written from. */
  predicate ScansBack(e: Expr)
    requires e.VarRef? || e.String? || e.Regex? || e.Distinct?
  {
    var r := Runes(LeafText(e));
    match e
    case VarRef(n) => ScanName(r) == Name(n, "")
    case String(s) => r != "" && r[0] == '\'' && StringBody(r[1..], '\'') == Literal(s, "")
    case Regex(re) => r != "" && r[0] == '/' && RegexBody(r[1..]) == Literal(re, "")
    case Distinct(v) => ScanName(r) == Name(v, "")
  }

  /** So the leaves that can be written down are exactly those whose text scans as themselves. */
  lemma WritableIsScanned(e: Expr)
    requires e.VarRef? || e.String? || e.Regex? || e.Distinct?
    ensures WritableLeaf(e, true) <==> ScansBack(e)
  {
    hide Lower, Reserved;
    assert Runes("") == "";
    match e
    case VarRef(n) =>
      NameReads(n, "");
      assert NameWritten(n) + "" == NameWritten(n);
    case String(s) =>
      QuotedReads(s, '\'', "");
      var tail := Escaped(s, '\'') + (['\''] + "");
      assert Quoted(s, '\'') == ['\''] + tail;
      RunesStep('\'', tail);
      assert (['\''] + Runes(tail))[1..] == Runes(tail);
    case Regex(re) =>
      RegexReads(re, "");
      var tail := SlashEscaped(re) + (['/'] + "");
      assert RegexWritten(re) == ['/'] + tail;
      RunesStep('/', tail);
      assert (['/'] + Runes(tail))[1..] == Runes(tail);
    case Distinct(v) =>
      BareReadsExact(v, "");
      assert v + "" == v;
  }

  // ----- Durations -----

  datatype TimeUnit = Week | Day | Hour | Minute | Second | Milli

  /** The nanoseconds of a unit. */
  function NanosOf(u: TimeUnit): int {
    match u
    case Week => 604_800_000_000_000
    case Day => 86_400_000_000_000
    case Hour => 3_600_000_000_000
    case Minute => 60_000_000_000
    case Second => 1_000_000_000
    case Milli => 1_000_000
  }

  /** `FormatDuration`: a number of the largest unit that fits, or of microseconds without a unit. */
  function FormatDuration(d: int): (int, Option<TimeUnit>) {
    if d == 0 then (0, Some(Second))
    else if d % NanosOf(Week) == 0 then (d / NanosOf(Week), Some(Week))
    else if d % NanosOf(Day) == 0 then (d / NanosOf(Day), Some(Day))
    else if d % NanosOf(Hour) == 0 then (d / NanosOf(Hour), Some(Hour))
    else if d % NanosOf(Minute) == 0 then (d / NanosOf(Minute), Some(Minute))
    else if d % NanosOf(Second) == 0 then (d / NanosOf(Second), Some(Second))
    else if d % NanosOf(Milli) == 0 then (d / NanosOf(Milli), Some(Milli))
    else (Micros(d), None)
  }

  /** A duration is written with a unit, and is that many of them, if and only if it is one of whole milliseconds. */
  lemma DurationReads(d: int)
    ensures var (n, u) := FormatDuration(d);
      && (u.Some? <==> d % MILLISECOND == 0)
      && (u.Some? ==> n * NanosOf(u.value) == d)
      && (u.None? ==> n == Micros(d))
  {
    forall u: TimeUnit ensures d % NanosOf(u) == 0 ==> d % MILLISECOND == 0 && d / NanosOf(u) * NanosOf(u) == d {
      WholeMillis(d, u);
    }
    hide NanosOf, Micros;
    assert NanosOf(Milli) == MILLISECOND;
  }

  lemma WholeMillis(d: int, u: TimeUnit)
    ensures d % NanosOf(u) == 0 ==> d % MILLISECOND == 0 && d / NanosOf(u) * NanosOf(u) == d
  {
    var k := match u case Week => 604_800_000 case Day => 86_400_000 case Hour => 3_600_000 case Minute => 60_000 case Second => 1000 case Milli => 1;
    if d % NanosOf(u) == 0 {
      G.ModOfMultiple(d / NanosOf(u) * k, MILLISECOND);
    }
  }

  // ----- Dates -----

  function Digit(n: nat): char
    requires n < 10
  {
    ('0' as int + n) as char
  }

  /** A date as it is written: four digits, two and two. */
  function DateText(y: nat, m: nat, d: nat): string
    requires y < 10_000 && m < 100 && d < 100
  {
    [Digit(y / 1000), Digit(y / 100 % 10), Digit(y / 10 % 10), Digit(y % 10), '-', Digit(m / 10), Digit(m % 10), '-', Digit(d / 10), Digit(d % 10)]
  }

  predicate StartsWithDate(s: string, y: nat, m: nat, d: nat) {
    y < 10_000 && m < 100 && d < 100 && |s| >= 10 && s[..10] == DateText(y, m, d)
  }

  function ValueOf(c: char): nat
    requires IsDigit(c)
    ensures ValueOf(c) < 10 && Digit(ValueOf(c)) == c
  {
    c as int - '0' as int
  }

  /** The number two digits make. */
  lemma TwoDigits(a: nat, b: nat)
    requires a < 10 && b < 10
    ensures (10 * a + b) / 10 == a && (10 * a + b) % 10 == b
  {
  }

  lemma FourDigits(a: nat, b: nat, c: nat, e: nat)
    requires a < 10 && b < 10 && c < 10 && e < 10
    ensures var y := 1000 * a + 100 * b + 10 * c + e;
      y / 1000 == a && y / 100 % 10 == b && y / 10 % 10 == c && y % 10 == e
  {
    var y := 1000 * a + 100 * b + 10 * c + e;
    assert y / 10 == 100 * a + 10 * b + c;
    assert y / 100 == 10 * a + b;
    TwoDigits(a, b);
    TwoDigits(10 * a + b - 10 * a, c);
    assert (100 * a + 10 * b + c) % 10 == c;
  }

  lemma DateOf(s: string) returns (y: nat, m: nat, d: nat)
    requires LooksLikeDate(s)
    ensures StartsWithDate(s, y, m, d)
  {
    var a, b, c, e := ValueOf(s[0]), ValueOf(s[1]), ValueOf(s[2]), ValueOf(s[3]);
    var m1, m2, d1, d2 := ValueOf(s[5]), ValueOf(s[6]), ValueOf(s[8]), ValueOf(s[9]);
    FourDigits(a, b, c, e);
    TwoDigits(m1, m2);
    TwoDigits(d1, d2);
    y, m, d := 1000 * a + 100 * b + 10 * c + e, 10 * m1 + m2, 10 * d1 + d2;
    hide ValueOf;
    assert s[..10] == [s[0], s[1], s[2], s[3], s[4], s[5], s[6], s[7], s[8], s[9]];
    assert DateText(y, m, d) == [Digit(a), Digit(b), Digit(c), Digit(e), '-', Digit(m1), Digit(m2), '-', Digit(d1), Digit(d2)];
  }

  lemma DateIs(s: string, y: nat, m: nat, d: nat)
    requires StartsWithDate(s, y, m, d) && (|s| == 10 || s[10] != '\n')
    ensures LooksLikeDate(s)
  {
    var t := DateText(y, m, d);
    assert forall i :: 0 <= i < 10 ==> s[i] == t[i];
  }

  /** What is taken for a date: the ten characters of one, and then nothing, or something other than a new line. */
  lemma DateExact(s: string)
    ensures LooksLikeDate(s) <==> (exists y, m, d :: StartsWithDate(s, y, m, d)) && (|s| == 10 || s[10] != '\n')
  {
    if LooksLikeDate(s) {
      var y, m, d := DateOf(s);
    }
    hide StartsWithDate;
    if (exists y, m, d :: StartsWithDate(s, y, m, d)) && (|s| == 10 || s[10] != '\n') {
      var y: nat, m: nat, d: nat :| StartsWithDate(s, y, m, d);
      DateIs(s, y, m, d);
    }
  }

  /** The days from the first of January of year 1 to that of another year, by the Gregorian calendar. */
  function DaysBefore(year: int): int {
    var n := year - 1;
    365 * n + n / 4 - n / 100 + n / 400
  }

  /** The times that are printed with a year of four digits are those of the years 0 to 9999. */
  lemma FourDigitYearExact(t: int)
    ensures FourDigitYear(t) <==> DaysBefore(0) * DAY_LENGTH <= t < DaysBefore(10_000) * DAY_LENGTH
  {
    assert DaysBefore(0) == -366 && DaysBefore(10_000) == 3_652_059;
  }
}
