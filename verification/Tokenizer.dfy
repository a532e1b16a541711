/** The quoting tokenizer of cmdline.h: `parser::parse(const std::string &)`. */
module Tokenizer {

  /** The argument list, or one of the two ways to fail. */
  datatype Tokens = Args(args: seq<string>) | Dangling | Unclosed

  function Prepend(front: seq<string>, t: Tokens): Tokens {
    if t.Args? then Args(front + t.args) else t
  }

  /** Splits `rest`, given whether a quote is open and the token begun so far.  A double quote is
      never part of a token; a space ends one, unless quoted; a backslash makes the next character
      part of the token. */
  function Scan(rest: string, inQuote: bool, buf: string): Tokens {
    if rest == [] then
      if inQuote then Unclosed else Args(if buf != [] then [buf] else [])
    else if rest[0] == '\"' then Scan(rest[1..], !inQuote, buf)
    else if rest[0] == ' ' && !inQuote then Prepend([buf], Scan(rest[1..], inQuote, ""))
    else if rest[0] == '\\' then
      if |rest| == 1 then Dangling else Scan(rest[2..], inQuote, buf + [rest[1]])
    else Scan(rest[1..], inQuote, buf + [rest[0]])
  }

  lemma PrependTwice(a: seq<string>, b: seq<string>, t: Tokens)
    ensures Prepend(a, Prepend(b, t)) == Prepend(a + b, t)
  {
    if t.Args? {
      assert a + (b + t.args) == (a + b) + t.args;
    }
  }

  /** The loop of `parse`. */
  method Split(arg: string) returns (r: Tokens)
    ensures r == Scan(arg, false, "")
  {
    var args: seq<string> := [];
    var buf: string := "";
    var inQuote := false;
    var i := 0;
    assert arg[0..] == arg;
    while i < |arg|
      invariant i <= |arg|
      invariant Prepend(args, Scan(arg[i..], inQuote, buf)) == Scan(arg, false, "")
    {
      ghost var rest := arg[i..];
      assert rest[1..] == arg[i + 1..];
      if arg[i] == '\"' {
        inQuote := !inQuote;
        i := i + 1;
        continue;
      }
      if arg[i] == ' ' && !inQuote {
        PrependTwice(args, [buf], Scan(arg[i + 1..], inQuote, ""));
        args := args + [buf];
        buf := "";
        i := i + 1;
        continue;
      }
      if arg[i] == '\\' {
        i := i + 1;
        if i >= |arg| {
          return Dangling;
        }
        assert rest[2..] == arg[i + 1..];
      }
      buf := buf + [arg[i]];
      i := i + 1;
    }
    assert arg[i..] == [];
    if inQuote {
      return Unclosed;
    }
    if |buf| > 0 {
      args := args + [buf];
    }
    r := Args(args);
  }

  // ---------------------------------------------------------------------------
  // Round trip
  // ---------------------------------------------------------------------------

  predicate Special(c: char) {
    c == ' ' || c == '\"' || c == '\\'
  }

  /** One character of a token with its backslash, if it needs one. */
  function EscapeOne(c: char): string {
    if Special(c) then ['\\', c] else [c]
  }

  function Escape(token: string): string {
    if token == [] then [] else EscapeOne(token[0]) + Escape(token[1..])
  }

  /** The same between quotes, where a space needs no backslash. */
  function EscapeIn(token: string): string {
    if token == [] then []
    else (if token[0] == ' ' then [token[0]] else EscapeOne(token[0])) + EscapeIn(token[1..])
  }

  /** A token written with backslashes, or in quotes. */
  function Written(token: string, quoted: bool): string {
    if quoted then "\"" + EscapeIn(token) + "\"" else Escape(token)
  }

  /** The tokens, each written one way or the other, joined by single spaces. */
  function Join(tokens: seq<string>, quoted: seq<bool>): string
    requires |quoted| == |tokens|
  {
    if tokens == [] then ""
    else if |tokens| == 1 then Written(tokens[0], quoted[0])
    else Written(tokens[0], quoted[0]) + " " + Join(tokens[1..], quoted[1..])
  }

  /** The tokenizer drops a last token that is empty. */
  function WithoutEmptyLast(tokens: seq<string>): seq<string> {
    if tokens != [] && tokens[|tokens| - 1] == "" then tokens[..|tokens| - 1] else tokens
  }

  lemma ScanOne(c: char, tail: string, buf: string)
    ensures Scan(EscapeOne(c) + tail, false, buf) == Scan(tail, false, buf + [c])
  {
    var text := EscapeOne(c) + tail;
    if Special(c) {
      assert text[2..] == tail;
    } else {
      assert text[1..] == tail;
    }
  }

  lemma {:induction false} ScanEscaped(token: string, rest: string, buf: string)
    ensures Scan(Escape(token) + rest, false, buf) == Scan(rest, false, buf + token)
  {
    hide Scan, EscapeOne;
    if token == [] {
      assert Escape(token) + rest == rest && buf + token == buf;
    } else {
      var c, more := token[0], token[1..];
      ScanOne(c, Escape(more) + rest, buf);
      assert Escape(token) + rest == EscapeOne(c) + (Escape(more) + rest);
      ScanEscaped(more, rest, buf + [c]);
      assert (buf + [c]) + more == buf + token;
    }
  }

  lemma ScanSpace(tail: string, buf: string)
    ensures Scan(" " + tail, false, buf) == Prepend([buf], Scan(tail, false, ""))
  {
    assert (" " + tail)[1..] == tail;
  }

  lemma ScanEnd(buf: string)
    ensures Scan("", false, buf) == Args(if buf != [] then [buf] else [])
  {
  }

  lemma WithoutEmptyLastCons(tokens: seq<string>)
    requires |tokens| > 1
    ensures [tokens[0]] + WithoutEmptyLast(tokens[1..]) == WithoutEmptyLast(tokens)
  {
  }

  lemma ScanOneIn(c: char, tail: string, buf: string)
    ensures Scan((if c == ' ' then [c] else EscapeOne(c)) + tail, true, buf) == Scan(tail, true, buf + [c])
  {
    var text := (if c == ' ' then [c] else EscapeOne(c)) + tail;
    if Special(c) && c != ' ' {
      assert text[2..] == tail;
    } else {
      assert text[1..] == tail;
    }
  }

  /** Between quotes, up to the closing one. */
  lemma {:induction false} ScanEscapedIn(token: string, rest: string, buf: string)
    ensures Scan(EscapeIn(token) + "\"" + rest, true, buf) == Scan(rest, false, buf + token)
  {
    var text := EscapeIn(token) + "\"" + rest;
    if token == [] {
      assert text[1..] == rest && buf + token == buf;
    } else {
      hide Scan, EscapeOne;
      var c, more := token[0], token[1..];
      ScanOneIn(c, EscapeIn(more) + "\"" + rest, buf);
      assert text == (if c == ' ' then [c] else EscapeOne(c)) + (EscapeIn(more) + "\"" + rest);
      ScanEscapedIn(more, rest, buf + [c]);
      assert (buf + [c]) + more == buf + token;
    }
  }

  lemma ScanOpening(rest: string, buf: string)
    ensures Scan("\"" + rest, false, buf) == Scan(rest, true, buf)
  {
    assert ("\"" + rest)[1..] == rest;
  }

  /** Part of a token written in quotes, behind a part that is not: the two make one token. */
  lemma ScanQuotedPart(front: string, token: string, rest: string, buf: string)
    ensures Scan(Escape(front) + "\"" + EscapeIn(token) + "\"" + rest, false, buf)
         == Scan(rest, false, buf + front + token)
  {
    hide Scan, Escape, EscapeIn;
    var quoted := EscapeIn(token) + "\"" + rest;
    assert Escape(front) + "\"" + EscapeIn(token) + "\"" + rest == Escape(front) + ("\"" + quoted);
    ScanEscaped(front, "\"" + quoted, buf);
    ScanOpening(quoted, buf + front);
    ScanEscapedIn(token, rest, buf + front);
  }

  /** Either way to write a token is read as the token. */
  lemma ScanWritten(token: string, quoted: bool, rest: string, buf: string)
    ensures Scan(Written(token, quoted) + rest, false, buf) == Scan(rest, false, buf + token)
  {
    hide Scan, Escape, EscapeIn;
    if quoted {
      var inside := EscapeIn(token) + "\"" + rest;
      assert Written(token, quoted) + rest == "\"" + inside;
      ScanOpening(inside, buf);
      ScanEscapedIn(token, rest, buf);
    } else {
      ScanEscaped(token, rest, buf);
    }
  }

  /** Writing and joining any list of strings is undone by splitting, but for an empty last one. */
  lemma {:induction false} JoinIsSplit(tokens: seq<string>, quoted: seq<bool>)
    requires |quoted| == |tokens|
    ensures Scan(Join(tokens, quoted), false, "") == Args(WithoutEmptyLast(tokens))
    decreases |tokens|
  {
    hide Scan, Written;
    if tokens == [] {
      ScanEnd("");
    } else if |tokens| == 1 {
      var text := Written(tokens[0], quoted[0]);
      ScanWritten(tokens[0], quoted[0], "", "");
      assert text + "" == text && "" + tokens[0] == tokens[0];
      ScanEnd(tokens[0]);
    } else {
      hide WithoutEmptyLast;
      var first, tail := tokens[0], Join(tokens[1..], quoted[1..]);
      var text := Written(first, quoted[0]);
      ScanWritten(first, quoted[0], " " + tail, "");
      ScanSpace(tail, first);
      JoinIsSplit(tokens[1..], quoted[1..]);
      assert "" + first == first && text + " " + tail == text + (" " + tail);
      WithoutEmptyLastCons(tokens);
    }
  }

  /** So the round trip is exact if and only if the last string is not empty. */
  lemma RoundTripIff(tokens: seq<string>, quoted: seq<bool>)
    requires |quoted| == |tokens|
    ensures Scan(Join(tokens, quoted), false, "") == Args(tokens)
       <==> tokens == [] || tokens[|tokens| - 1] != ""
  {
    hide Scan, Join;
    JoinIsSplit(tokens, quoted);
  }

  /** Inside quotes a space is an ordinary character, and the quotes themselves disappear. */
  lemma {:induction false} ScanQuoted(text: string, rest: string, buf: string)
    requires forall k :: 0 <= k < |text| ==> text[k] != '\"' && text[k] != '\\'
    ensures Scan(text + "\"" + rest, true, buf) == Scan(rest, false, buf + text)
    decreases |text|
  {
    var whole := text + "\"" + rest;
    if text == [] {
      assert whole[1..] == rest && buf + text == buf;
    } else {
      assert whole[1..] == text[1..] + "\"" + rest;
      ScanQuoted(text[1..], rest, buf + [text[0]]);
      assert buf + [text[0]] + text[1..] == buf + text;
    }
  }

  // ---------------------------------------------------------------------------
  // Failure
  // ---------------------------------------------------------------------------

  /** The length of the run of backslashes that ends before position `i`. */
  function Backslashes(arg: string, i: nat): nat
    requires i <= |arg|
  {
    if i > 0 && arg[i - 1] == '\\' then 1 + Backslashes(arg, i - 1) else 0
  }

  /** Position `i` follows an odd run of backslashes. */
  predicate Escaped(arg: string, i: nat)
    requires i <= |arg|
  {
    Backslashes(arg, i) % 2 == 1
  }

  /** The number of double quotes before position `i` that are not escaped. */
  function Quotes(arg: string, i: nat): nat
    requires i <= |arg|
  {
    if i == 0 then 0
    else Quotes(arg, i - 1) + if arg[i - 1] == '\"' && !Escaped(arg, i - 1) then 1 else 0
  }

  predicate Fails(arg: string, t: Tokens) {
    && (t.Dangling? <==> Escaped(arg, |arg|))
    && (t.Unclosed? <==> !Escaped(arg, |arg|) && Quotes(arg, |arg|) % 2 == 1)
  }

  /** One step of the scan, at a position of the text. */
  lemma ScanAt(arg: string, i: nat, inQuote: bool, buf: string)
    requires i < |arg|
    ensures Scan(arg[i..], inQuote, buf) ==
      if arg[i] == '\"' then Scan(arg[i + 1..], !inQuote, buf)
      else if arg[i] == ' ' && !inQuote then Prepend([buf], Scan(arg[i + 1..], inQuote, ""))
      else if arg[i] == '\\' then
        if i + 1 == |arg| then Dangling else Scan(arg[i + 2..], inQuote, buf + [arg[i + 1]])
      else Scan(arg[i + 1..], inQuote, buf + [arg[i]])
  {
    var rest := arg[i..];
    assert rest[1..] == arg[i + 1..];
    assert i + 1 < |arg| ==> rest[2..] == arg[i + 2..];
  }

  /** Behind a character that is not escaped, and behind one that is. */
  lemma MarksNext(arg: string, i: nat)
    requires i < |arg| && !Escaped(arg, i)
    ensures Escaped(arg, i + 1) <==> arg[i] == '\\'
    ensures Quotes(arg, i + 1) == Quotes(arg, i) + if arg[i] == '\"' then 1 else 0
    ensures arg[i] == '\\' && i + 1 < |arg| ==> !Escaped(arg, i + 2) && Quotes(arg, i + 2) == Quotes(arg, i)
  {
  }

  lemma {:induction false} FailsFrom(arg: string, i: nat, inQuote: bool, buf: string)
    requires i <= |arg| && !Escaped(arg, i) && (inQuote <==> Quotes(arg, i) % 2 == 1)
    ensures Fails(arg, Scan(arg[i..], inQuote, buf))
    decreases |arg| - i
  {
    hide Escaped, Quotes;
    if i == |arg| {
    } else {
      hide Scan;
      ScanAt(arg, i, inQuote, buf);
      MarksNext(arg, i);
      if arg[i] == '\"' {
        FailsFrom(arg, i + 1, !inQuote, buf);
      } else if arg[i] == ' ' && !inQuote {
        FailsFrom(arg, i + 1, inQuote, "");
      } else if arg[i] == '\\' {
        if i + 1 < |arg| {
          FailsFrom(arg, i + 2, inQuote, buf + [arg[i + 1]]);
        }
      } else {
        FailsFrom(arg, i + 1, inQuote, buf + [arg[i]]);
      }
    }
  }

  /** The split fails exactly on a dangling backslash (the text ends in an odd run of them) or,
      failing that, on an unclosed quote (an odd number of quotes that are not escaped). */
  lemma FailsExactly(arg: string)
    ensures Fails(arg, Scan(arg, false, ""))
  {
    assert arg[0..] == arg;
    FailsFrom(arg, 0, false, "");
  }

  // ---------------------------------------------------------------------------
  // What the tokens are
  // ---------------------------------------------------------------------------

  /** A space that ends a token: neither escaped nor behind an odd number of quotes. */
  predicate Separates(arg: string, i: nat)
    requires i < |arg|
  {
    arg[i] == ' ' && !Escaped(arg, i) && Quotes(arg, i) % 2 == 0
  }

  /** A quote or a backslash that is not escaped is part of no token. */
  predicate Markup(arg: string, i: nat)
    requires i < |arg|
  {
    (arg[i] == '\"' || arg[i] == '\\') && !Escaped(arg, i)
  }

  /** The first `n` characters cut at the separating spaces, without the markup. */
  function Pieces(arg: string, n: nat): (pieces: seq<string>)
    requires n <= |arg|
    ensures |pieces| >= 1
  {
    if n == 0 then [""]
    else
      var before, i := Pieces(arg, n - 1), n - 1;
      if Separates(arg, i) then before + [""]
      else if Markup(arg, i) then before
      else before[|before| - 1 := before[|before| - 1] + [arg[i]]]
  }

  /** The tokens found by the rest of a scan complete the pieces. */
  predicate Completes(arg: string, i: nat, t: Tokens)
    requires i <= |arg|
  {
    var pieces := Pieces(arg, i);
    t.Args? ==> pieces[..|pieces| - 1] + t.args == WithoutEmptyLast(Pieces(arg, |arg|))
  }

  /** The pieces behind a character that is not escaped, and behind one that is. */
  lemma PiecesNext(arg: string, i: nat)
    requires i < |arg| && !Escaped(arg, i)
    ensures var pieces, n := Pieces(arg, i), |Pieces(arg, i)| - 1;
      && (arg[i] == '\"' || arg[i] == '\\' ==> Pieces(arg, i + 1) == pieces)
      && (arg[i] == ' ' && Quotes(arg, i) % 2 == 0 ==> Pieces(arg, i + 1) == pieces + [""])
      && (arg[i] != '\"' && arg[i] != '\\' && (arg[i] == ' ' ==> Quotes(arg, i) % 2 == 1) ==>
            Pieces(arg, i + 1) == pieces[n := pieces[n] + [arg[i]]])
      && (arg[i] == '\\' && i + 1 < |arg| ==> Pieces(arg, i + 2) == pieces[n := pieces[n] + [arg[i + 1]]])
  {
    hide Escaped, Quotes;
    MarksNext(arg, i);
  }

  lemma {:induction false} ScanFrom(arg: string, i: nat, inQuote: bool, buf: string)
    requires i <= |arg| && !Escaped(arg, i) && (inQuote <==> Quotes(arg, i) % 2 == 1)
    requires buf == Pieces(arg, i)[|Pieces(arg, i)| - 1]
    ensures Completes(arg, i, Scan(arg[i..], inQuote, buf))
    decreases |arg| - i
  {
    hide Escaped, Quotes, Pieces;
    if i == |arg| {
    } else {
      hide Scan, WithoutEmptyLast;
      var pieces, n := Pieces(arg, i), |Pieces(arg, i)| - 1;
      ScanAt(arg, i, inQuote, buf);
      MarksNext(arg, i);
      PiecesNext(arg, i);
      if arg[i] == '\"' {
        ScanFrom(arg, i + 1, !inQuote, buf);
      } else if arg[i] == ' ' && !inQuote {
        ScanFrom(arg, i + 1, inQuote, "");
        assert pieces[..n] + [buf] == pieces == (pieces + [""])[..n + 1];
        PrependTwice(pieces[..n], [buf], Scan(arg[i + 1..], inQuote, ""));
      } else if arg[i] == '\\' {
        if i + 1 < |arg| {
          ScanFrom(arg, i + 2, inQuote, buf + [arg[i + 1]]);
        }
      } else {
        ScanFrom(arg, i + 1, inQuote, buf + [arg[i]]);
      }
    }
  }

  /** A text that splits gives its pieces, but for an empty last one. */
  lemma PiecesAre(arg: string)
    ensures var t := Scan(arg, false, "");
      t.Args? ==> t.args == WithoutEmptyLast(Pieces(arg, |arg|))
  {
    assert arg[0..] == arg;
    ScanFrom(arg, 0, false, "");
  }
}
