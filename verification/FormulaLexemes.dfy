/** What the tokenizer reads, piece by piece and character by character: together the cases cover every string. */
module FormulaLexemes {
  import opened Wrappers
  import opened FormulaTokens

  /** The 25 characters of \s. */
  const WHITE := "\t\n\U{000B}\U{000C}\r \U{00A0}\U{1680}\U{2000}\U{2001}\U{2002}\U{2003}\U{2004}\U{2005}" +
                 "\U{2006}\U{2007}\U{2008}\U{2009}\U{200A}\U{2028}\U{2029}\U{202F}\U{205F}\U{3000}\U{FEFF}"

  predicate Numeric(c: char) { '0' <= c <= '9' || c == '.' }
  predicate Letter(c: char) { 'A' <= c <= 'Z' || 'a' <= c <= 'z' || c == '_' }
  predicate Wordy(c: char) { Letter(c) || '0' <= c <= '9' || c == '-' }

  ghost predicate AllWhite(s: string) {
    forall i :: 0 <= i < |s| ==> s[i] in WHITE
  }

  ghost predicate Ends(rest: string, p: char -> bool) { rest == "" || !p(rest[0]) }

  /** Two points, or no digit. */
  ghost predicate NotANumber(raw: string) {
    || (exists i, j :: 0 <= i < j < |raw| && raw[i] == '.' && raw[j] == '.')
    || (forall i :: 0 <= i < |raw| ==> raw[i] == '.')
  }

  lemma WhiteExact(c: char)
    ensures c in WHITE <==> IsSpace(c)
  {}

  // ---------------------------------------------------------------- white space and signs

  lemma Skipped(c: char, rest: string)
    requires c in WHITE
    ensures Lex([c] + rest) == Lex(rest)
  {
    WhiteExact(c);
    assert ([c] + rest)[1..] == rest;
  }

  lemma OneSign(c: char, t: Token, rest: string)
    requires !IsSpace(c) && Head([c] + rest) == Some((t, 1))
    ensures Lex([c] + rest) == Prepend([t], Lex(rest))
  {
    hide Head;
    assert ([c] + rest)[1..] == rest;
  }

  lemma SignsRead(rest: string)
    ensures Lex("+" + rest) == Prepend([Op(Plus)], Lex(rest)) && Lex("-" + rest) == Prepend([Op(Minus)], Lex(rest))
    ensures Lex("*" + rest) == Prepend([Op(Times)], Lex(rest)) && Lex("/" + rest) == Prepend([Op(Over)], Lex(rest))
    ensures Lex("(" + rest) == Prepend([Open], Lex(rest)) && Lex(")" + rest) == Prepend([Close], Lex(rest))
    ensures Lex("") == Some([])
  {
    hide Lex, Prepend;
    OneSign('+', Op(Plus), rest);
    OneSign('-', Op(Minus), rest);
    OneSign('*', Op(Times), rest);
    OneSign('/', Op(Over), rest);
    OneSign('(', Open, rest);
    OneSign(')', Close, rest);
    NoTokens();
  }

  lemma NoTokens()
    ensures Lex("") == Some([])
  {}

  /** A character of no token. */
  lemma Unexpected(c: char, rest: string)
    requires c !in WHITE && c !in "+-*/()[" && !Numeric(c) && !Letter(c)
    ensures Lex([c] + rest) == None
  {
    WhiteExact(c);
    assert Head([c] + rest) == None by {
      assert "+-*/()["[0] == '+' && "+-*/()["[1] == '-' && "+-*/()["[2] == '*' && "+-*/()["[3] == '/';
      assert "+-*/()["[4] == '(' && "+-*/()["[5] == ')' && "+-*/()["[6] == '[';
    }
  }

  // ---------------------------------------------------------------- references in brackets

  lemma {:induction false} LeftOf(l: string, y: string)
    requires AllWhite(l) && Ends(y, IsSpace)
    ensures TrimStart(l + y) == y
  {
    if l == "" {
      assert l + y == y;
    } else {
      WhiteExact(l[0]);
      assert (l + y)[1..] == l[1..] + y;
      LeftOf(l[1..], y);
    }
  }

  lemma {:induction false} RightOf(y: string, r: string)
    requires AllWhite(r) && (y != "" ==> !IsSpace(y[|y| - 1]))
    ensures TrimEnd(y + r) == y
  {
    if r == "" {
      assert y + r == y;
    } else {
      var n := |r| - 1;
      WhiteExact(r[n]);
      assert (y + r)[..|y + r| - 1] == y + r[..n];
      RightOf(y, r[..n]);
    }
  }

  lemma TrimmedName(l: string, name: string, r: string)
    requires AllWhite(l) && AllWhite(r)
    requires name == "" ==> r == ""
    requires name != "" ==> name[0] !in WHITE && name[|name| - 1] !in WHITE
    ensures Trim(l + name + r) == name
  {
    if name != "" {
      WhiteExact(name[0]);
      WhiteExact(name[|name| - 1]);
    }
    assert l + name + r == l + (name + r);
    LeftOf(l, name + r);
    RightOf(name, r);
  }

  lemma NoBracketInWhite(s: string)
    requires AllWhite(s)
    ensures ']' !in s
  {
    if i :| 0 <= i < |s| && s[i] == ']' {
      WhiteExact(s[i]);
      assert false;
    }
  }

  lemma Bracketed(inside: string, rest: string)
    requires ']' !in inside
    ensures Lex("[" + inside + "]" + rest) ==
            if Trim(inside) == "" then None else Prepend([Ref(Trim(inside))], Lex(rest))
  {
    hide Trim;
    var s := "[" + inside + "]" + rest;
    assert s[1..] == inside + [']'] + rest;
    FirstIndexOf(inside, ']', rest);
    assert s[1..|inside| + 1] == inside && s[|inside| + 2..] == rest;
    assert Head(s) == if Trim(inside) == "" then None else Some((Ref(Trim(inside)), |inside| + 2));
  }

  /** A bracketed name is read without the white space around it; it may hold anything but a bracket. */
  lemma BracketedName(l: string, name: string, r: string, rest: string)
    requires AllWhite(l) && AllWhite(r) && name != "" && ']' !in name
    requires name[0] !in WHITE && name[|name| - 1] !in WHITE
    ensures Lex("[" + (l + name + r) + "]" + rest) == Prepend([Ref(name)], Lex(rest))
  {
    hide Lex, AllWhite;
    TrimmedName(l, name, r);
    NoBracketInWhite(l);
    NoBracketInWhite(r);
    Bracketed(l + name + r, rest);
  }

  /** An empty pair of brackets and one that is not closed are errors. */
  lemma BadBrackets(l: string, rest: string)
    ensures AllWhite(l) ==> Lex("[" + l + "]" + rest) == None
    ensures ']' !in rest ==> Lex("[" + rest) == None
  {
    if AllWhite(l) {
      NoBracketInWhite(l);
      TrimmedName(l, "", "");
      assert l + "" + "" == l;
      Bracketed(l, rest);
    }
    if ']' !in rest {
      Unclosed(rest);
    }
  }

  lemma Unclosed(rest: string)
    requires ']' !in rest
    ensures Lex("[" + rest) == None
  {
    assert ("[" + rest)[1..] == rest;
    FoundAt(rest, ']');
  }

  // ---------------------------------------------------------------- numerals and bare names

  lemma {:induction false} DotsCount(raw: string)
    ensures Dots(raw) == 0 <==> '.' !in raw
    ensures Dots(raw) > 1 <==> exists i, j :: 0 <= i < j < |raw| && raw[i] == '.' && raw[j] == '.'
    ensures Dots(raw) <= |raw| && (Dots(raw) == |raw| <==> forall i :: 0 <= i < |raw| ==> raw[i] == '.')
  {
    if raw != "" {
      var tail := raw[1..];
      DotsCount(tail);
      assert forall i :: 0 <= i < |tail| ==> raw[i + 1] == tail[i];
      if raw[0] == '.' && '.' in tail {
        var j :| 0 <= j < |tail| && tail[j] == '.';
        assert raw[0] == '.' && raw[j + 1] == '.';
      }
      if i, j :| 0 <= i < j < |tail| && tail[i] == '.' && tail[j] == '.' {
        assert raw[i + 1] == '.' && raw[j + 1] == '.';
      }
      if i, j :| 0 <= i < j < |raw| && raw[i] == '.' && raw[j] == '.' {
        assert tail[j - 1] == '.' && (i > 0 ==> tail[i - 1] == '.');
      }
    }
  }

  /** A longest run of digits and points is one number, unless it has two points or no digit. */
  lemma NumeralRead(raw: string, rest: string)
    requires raw != "" && (forall i :: 0 <= i < |raw| ==> Numeric(raw[i])) && Ends(rest, Numeric)
    ensures NotANumber(raw) <==> NumberOf(raw) == None
    ensures Lex(raw + rest) ==
            if NotANumber(raw) then None else Prepend([Number(NumberOf(raw).value)], Lex(rest))
  {
    DotsCount(raw);
    SpanOf(raw, rest, IsNumeral);
    var s := raw + rest;
    assert IsNumeral(s[0]) && s[..|raw|] == raw && s[|raw|..] == rest;
    NumeralHead(s, |raw|);
  }

  lemma NumeralHead(s: string, n: nat)
    requires s != "" && IsNumeral(s[0]) && Span(s, IsNumeral) == n
    ensures !IsSpace(s[0])
    ensures Head(s) == if NumberOf(s[..n]) == None then None else Some((Number(NumberOf(s[..n]).value), n))
  {
    hide NumberOf;
  }

  /** A longest run of letters, digits, underscores and hyphens that starts with a letter is one reference. */
  lemma NameRead(name: string, rest: string)
    requires name != "" && Letter(name[0]) && (forall i :: 0 <= i < |name| ==> Wordy(name[i])) && Ends(rest, Wordy)
    ensures Lex(name + rest) == Prepend([Ref(name)], Lex(rest))
  {
    BareName(name, rest);
  }
}
