/** Splitting SQL text at semicolons outside quotes (`split_sql_statements` in
    src/cli/client.rs). */
module SqlSplit {
  import opened Basics
  import opened KvText

  datatype Quotes = Quotes(single: bool, double: bool)

  const OUTSIDE := Quotes(false, false)

  function Toggle(q: Quotes, c: char): Quotes {
    if c == '\'' && !q.double then q.(single := !q.single)
    else if c == '"' && !q.single then q.(double := !q.double)
    else q
  }

  datatype State = State(stmts: seq<string>, current: string, quotes: Quotes)

  function Flush(stmts: seq<string>, current: string): seq<string> {
    if Trim(current) == "" then stmts else stmts + [Trim(current)]
  }

  function Feed(st: State, c: char): State {
    if c == ';' && st.quotes == OUTSIDE then State(Flush(st.stmts, st.current), "", OUTSIDE)
    else State(st.stmts, st.current + [c], Toggle(st.quotes, c))
  }

  function FeedAll(st: State, sql: string): State {
    if sql == "" then st else Feed(FeedAll(st, sql[..|sql| - 1]), sql[|sql| - 1])
  }

  function Split(sql: string): seq<string> {
    var st := FeedAll(State([], "", OUTSIDE), sql);
    Flush(st.stmts, st.current)
  }

  method SplitSqlStatements(sql: string) returns (stmts: seq<string>)
    ensures stmts == Split(sql)
  {
    stmts := [];
    var current := "";
    var inSingle, inDouble := false, false;
    for i := 0 to |sql|
      invariant FeedAll(State([], "", OUTSIDE), sql[..i]) == State(stmts, current, Quotes(inSingle, inDouble))
    {
      assert sql[..i + 1][..i] == sql[..i];
      var ch := sql[i];
      if ch == '\'' && !inDouble {
        inSingle := !inSingle;
        current := current + [ch];
      } else if ch == '"' && !inSingle {
        inDouble := !inDouble;
        current := current + [ch];
      } else if ch == ';' && !inSingle && !inDouble {
        if Trim(current) != "" {
          stmts := stmts + [Trim(current)];
        }
        current := "";
      } else {
        current := current + [ch];
      }
    }
    assert sql[..|sql|] == sql;
    if Trim(current) != "" {
      stmts := stmts + [Trim(current)];
    }
  }

  // ----- What a statement is -----

  /** The quote state after scanning `s` from outside quotes, or nothing if the scan meets
      a semicolon outside quotes. */
  function Scan(s: string): Option<Quotes> {
    if s == "" then Some(OUTSIDE)
    else
      var init, c := Scan(s[..|s| - 1]), s[|s| - 1];
      if init.None? || (c == ';' && init.value == OUTSIDE) then None else Some(Toggle(init.value, c))
  }

  /** Non-empty, trimmed, and free of unquoted semicolons. */
  predicate Piece(s: string) {
    s != "" && Trimmed(s) && Scan(s).Some?
  }

  /** A list of statements, all but the last with closed quotes. */
  predicate Script(stmts: seq<string>) {
    && (forall i :: 0 <= i < |stmts| ==> Piece(stmts[i]))
    && (forall i :: 0 <= i < |stmts| - 1 ==> Scan(stmts[i]) == Some(OUTSIDE))
  }

  /** The statements separated by semicolons. */
  function Join(stmts: seq<string>): string {
    if stmts == [] then ""
    else if |stmts| == 1 then stmts[0]
    else Join(stmts[..|stmts| - 1]) + ";" + stmts[|stmts| - 1]
  }

  lemma {:induction false} FeedPiece(done: seq<string>, s: string)
    requires Scan(s).Some?
    ensures FeedAll(State(done, "", OUTSIDE), s) == State(done, s, Scan(s).value)
  {
    if s != "" {
      var init, c := s[..|s| - 1], s[|s| - 1];
      LastChar(s, init, c);
      FeedOne(done, init, c);
      FeedPiece(done, init);
      FeedLast(State(done, "", OUTSIDE), init, c);
    }
  }

  lemma LastChar(s: string, init: string, c: char)
    requires s != "" && init == s[..|s| - 1] && c == s[|s| - 1]
    ensures s == init + [c]
  {
  }

  lemma FeedLast(st: State, init: string, c: char)
    ensures FeedAll(st, init + [c]) == Feed(FeedAll(st, init), c)
  {
    assert (init + [c])[..|init|] == init;
  }

  lemma FeedOne(done: seq<string>, init: string, c: char)
    requires Scan(init + [c]).Some?
    ensures Scan(init).Some?
    ensures Feed(State(done, init, Scan(init).value), c) == State(done, init + [c], Scan(init + [c]).value)
  {
    assert (init + [c])[..|init|] == init;
  }

  lemma {:induction false} FeedAppend(st: State, a: string, b: string)
    ensures FeedAll(st, a + b) == FeedAll(FeedAll(st, a), b)
  {
    if b == "" {
      assert a + b == a;
    } else {
      FeedAppend(st, a, b[..|b| - 1]);
      assert (a + b)[..|a + b| - 1] == a + b[..|b| - 1];
    }
  }

  lemma {:induction false} FeedJoin(stmts: seq<string>)
    requires Script(stmts) && stmts != []
    ensures FeedAll(State([], "", OUTSIDE), Join(stmts)) ==
            State(stmts[..|stmts| - 1], stmts[|stmts| - 1], Scan(stmts[|stmts| - 1]).value)
  {
    var n := |stmts| - 1;
    if n == 0 {
      FeedPiece([], stmts[0]);
    } else {
      var init := stmts[..n];
      FeedJoin(init);
      assert init[..n - 1] + [stmts[n - 1]] == init;
      FeedSeparated(Join(init), init[..n - 1], stmts[n - 1], stmts[n]);
      FeedPiece(init, stmts[n]);
    }
  }

  /** A semicolon after a complete statement files it and starts the next. */
  lemma FeedSeparated(text: string, done: seq<string>, last: string, next: string)
    requires last != "" && Trimmed(last)
    requires FeedAll(State([], "", OUTSIDE), text) == State(done, last, OUTSIDE)
    ensures FeedAll(State([], "", OUTSIDE), text + ";" + next) == FeedAll(State(done + [last], "", OUTSIDE), next)
  {
    var start := State([], "", OUTSIDE);
    FeedAppend(start, text + ";", next);
    assert (text + ";")[..|text|] == text;
    assert FeedAll(start, text + ";") == Feed(State(done, last, OUTSIDE), ';');
    var _, _ := TrimShape(last);
  }

  /** Splitting inverts joining, on every script. */
  lemma SplitJoin(stmts: seq<string>)
    requires Script(stmts)
    ensures Split(Join(stmts)) == stmts
  {
    if stmts == [] {
      assert Trim("") == "";
    } else {
      var n := |stmts| - 1;
      FeedJoin(stmts);
      var _, _ := TrimShape(stmts[n]);
      assert stmts[..n] + [stmts[n]] == stmts;
    }
  }

  // ----- Every result is a script -----

  lemma {:induction false} ScanLeadingSpace(c: char, s: string)
    requires IsSpace(c)
    ensures Scan([c] + s) == Scan(s)
  {
    if s == "" {
      assert [c] + s == [c] && [c][..0] == "";
      assert Scan("") == Some(OUTSIDE);
    } else {
      ScanLeadingSpace(c, s[..|s| - 1]);
      assert ([c] + s)[..|s|] == [c] + s[..|s| - 1];
    }
  }

  lemma {:induction false} ScanTrimStart(s: string)
    ensures Scan(TrimStart(s)) == Scan(s)
  {
    if s != "" && IsSpace(s[0]) {
      ScanTrimStart(s[1..]);
      ScanLeadingSpace(s[0], s[1..]);
      assert [s[0]] + s[1..] == s;
    }
  }

  lemma {:induction false} ScanTrimEnd(s: string)
    ensures Scan(TrimEnd(s)) == Scan(s)
  {
    if s != "" && IsSpace(s[|s| - 1]) {
      ScanTrimEnd(s[..|s| - 1]);
    }
  }

  /** Trimming changes neither the quotes nor the semicolons a scan sees. */
  lemma ScanTrim(s: string)
    ensures Scan(Trim(s)) == Scan(s)
  {
    ScanTrimStart(s);
    ScanTrimEnd(TrimStart(s));
  }

  ghost predicate Sound(st: State) {
    && (forall i :: 0 <= i < |st.stmts| ==> Piece(st.stmts[i]) && Scan(st.stmts[i]) == Some(OUTSIDE))
    && Scan(st.current) == Some(st.quotes)
  }

  lemma {:induction false} FeedSound(sql: string)
    ensures Sound(FeedAll(State([], "", OUTSIDE), sql))
  {
    if sql != "" {
      FeedSound(sql[..|sql| - 1]);
      var st, c := FeedAll(State([], "", OUTSIDE), sql[..|sql| - 1]), sql[|sql| - 1];
      if c == ';' && st.quotes == OUTSIDE {
        FlushSound(st);
      } else {
        assert (st.current + [c])[..|st.current|] == st.current;
      }
    }
  }

  lemma FlushSound(st: State)
    requires Sound(st)
    ensures Script(Flush(st.stmts, st.current))
    ensures st.quotes == OUTSIDE ==> Sound(State(Flush(st.stmts, st.current), "", OUTSIDE))
  {
    ScanTrim(st.current);
    var _, _ := TrimShape(st.current);
  }

  /** Splitting any text yields a script, so a list of statements is the split of some
      text iff it is a script, and splitting again changes nothing. */
  lemma SplitIsScript(sql: string)
    ensures Script(Split(sql))
    ensures Split(Join(Split(sql))) == Split(sql)
  {
    FeedSound(sql);
    FlushSound(FeedAll(State([], "", OUTSIDE), sql));
    SplitJoin(Split(sql));
  }

  // ----- Reading a text as SQL -----

  /** What SQL text consists of: plain text, quoted text, semicolons between statements,
      and possibly a quotation that is never closed. */
  datatype Token =
    | Plain(text: string)
    | Quoted(quote: char, body: string)
    | Separator
    | Unclosed(quote: char, body: string)

  predicate IsQuote(c: char) {
    c == '\'' || c == '"'
  }

  /** Plain text has neither quotes nor semicolons; a quotation anything but its own quote. */
  predicate Lexical(t: Token) {
    match t
    case Plain(text) => forall i :: 0 <= i < |text| ==> !IsQuote(text[i]) && text[i] != ';'
    case Quoted(quote, body) => IsQuote(quote) && quote !in body
    case Separator => true
    case Unclosed(quote, body) => IsQuote(quote) && quote !in body
  }

  /** Only the last quotation may stay open. */
  predicate Reading(tokens: seq<Token>) {
    && (forall i :: 0 <= i < |tokens| ==> Lexical(tokens[i]))
    && (forall i :: 0 <= i < |tokens| - 1 ==> !tokens[i].Unclosed?)
  }

  function Written(t: Token): string {
    match t
    case Plain(text) => text
    case Quoted(quote, body) => [quote] + body + [quote]
    case Separator => ";"
    case Unclosed(quote, body) => [quote] + body
  }

  function Source(tokens: seq<Token>): string {
    if tokens == [] then "" else Source(tokens[..|tokens| - 1]) + Written(tokens[|tokens| - 1])
  }

  /** The text between separators. */
  function Between(tokens: seq<Token>): (pieces: seq<string>)
    ensures pieces != []
  {
    if tokens == [] then [""]
    else Continued(Between(tokens[..|tokens| - 1]), tokens[|tokens| - 1])
  }

  /** A separator starts a new piece; anything else goes on with the last. */
  function Continued(pieces: seq<string>, t: Token): (next: seq<string>)
    requires pieces != []
    ensures next != []
  {
    var n := |pieces| - 1;
    if t.Separator? then pieces + [""] else pieces[..n] + [pieces[n] + Written(t)]
  }

  /** Each trimmed, those left empty dropped. */
  function Statements(pieces: seq<string>): seq<string> {
    if pieces == [] then []
    else
      var init, last := Statements(pieces[..|pieces| - 1]), Trim(pieces[|pieces| - 1]);
      if last == "" then init else init + [last]
  }

  /** Every text can be read this way. */
  lemma {:induction false} EveryTextReads(sql: string) returns (tokens: seq<Token>)
    ensures Reading(tokens) && Source(tokens) == sql
  {
    if sql == "" {
      tokens := [];
    } else {
      var init, c := sql[..|sql| - 1], sql[|sql| - 1];
      LastChar(sql, init, c);
      var before := EveryTextReads(init);
      tokens := ReadOne(before, c);
    }
  }

  /** One more character. */
  lemma ReadOne(before: seq<Token>, c: char) returns (tokens: seq<Token>)
    requires Reading(before)
    ensures Reading(tokens) && Source(tokens) == Source(before) + [c]
  {
    if before != [] && before[|before| - 1].Unclosed? {
      var init, t := before[..|before| - 1], before[|before| - 1];
      var t' := if c == t.quote then Quoted(c, t.body) else Unclosed(t.quote, t.body + [c]);
      Extended(t, t', c);
      ReadingSnoc(init, t');
      SourceSnoc(init, t');
      Appended(Source(init), Written(t), c);
      tokens := init + [t'];
    } else {
      var t := Opening(c);
      ReadingSnoc(before, t);
      SourceSnoc(before, t);
      tokens := before + [t];
    }
  }

  lemma Appended(s: string, t: string, c: char)
    ensures s + (t + [c]) == s + t + [c]
  {
  }

  function Opening(c: char): (t: Token)
    ensures Lexical(t) && Written(t) == [c]
  {
    if IsQuote(c) then Unclosed(c, "") else if c == ';' then Separator else Plain([c])
  }

  lemma Extended(t: Token, t': Token, c: char)
    requires t.Unclosed? && Lexical(t)
    requires t' == if c == t.quote then Quoted(c, t.body) else Unclosed(t.quote, t.body + [c])
    ensures Lexical(t') && Written(t') == Written(t) + [c]
  {
  }

  lemma ReadingSnoc(tokens: seq<Token>, t: Token)
    requires Reading(tokens) && Lexical(t) && (tokens != [] ==> !tokens[|tokens| - 1].Unclosed?)
    ensures Reading(tokens + [t])
  {
    var all := tokens + [t];
    forall i | 0 <= i < |all| ensures Lexical(all[i]) {
      assert i < |tokens| ==> all[i] == tokens[i];
    }
  }

  lemma SourceSnoc(tokens: seq<Token>, t: Token)
    ensures Source(tokens + [t]) == Source(tokens) + Written(t)
  {
    assert (tokens + [t])[..|tokens|] == tokens;
  }

  function Inside(quote: char): Quotes {
    if quote == '\'' then Quotes(true, false) else Quotes(false, true)
  }

  /** Characters that neither open nor close a quotation nor separate are collected. */
  lemma {:induction false} FeedCollects(st: State, text: string)
    requires if st.quotes == OUTSIDE then Lexical(Plain(text))
             else exists q :: IsQuote(q) && st.quotes == Inside(q) && q !in text
    ensures FeedAll(st, text) == st.(current := st.current + text)
  {
    if text == "" {
      assert st.current + text == st.current;
    } else {
      var init, c := text[..|text| - 1], text[|text| - 1];
      FeedCollects(st, init);
      assert c in text;
      assert st.current + init + [c] == st.current + text;
    }
  }

  lemma FeedUnclosed(st: State, quote: char, body: string)
    requires st.quotes == OUTSIDE && IsQuote(quote) && quote !in body
    ensures FeedAll(st, [quote] + body) == State(st.stmts, st.current + ([quote] + body), Inside(quote))
  {
    FeedAppend(st, [quote], body);
    FeedLast(st, "", quote);
    assert "" + [quote] == [quote];
    FeedCollects(State(st.stmts, st.current + [quote], Inside(quote)), body);
    assert st.current + [quote] + body == st.current + ([quote] + body);
  }

  lemma FeedQuoted(st: State, quote: char, body: string)
    requires st.quotes == OUTSIDE && IsQuote(quote) && quote !in body
    ensures FeedAll(st, [quote] + body + [quote]) == st.(current := st.current + ([quote] + body + [quote]))
  {
    FeedUnclosed(st, quote, body);
    FeedLast(st, [quote] + body, quote);
    assert st.current + ([quote] + body) + [quote] == st.current + ([quote] + body + [quote]);
  }

  /** The scan has filed all pieces but the last and is collecting that. */
  ghost predicate Collecting(st: State, pieces: seq<string>)
    requires pieces != []
  {
    st.stmts == Statements(pieces[..|pieces| - 1]) && st.current == pieces[|pieces| - 1]
  }

  lemma {:induction false} FeedReading(tokens: seq<Token>)
    requires Reading(tokens)
    ensures var st := FeedAll(State([], "", OUTSIDE), Source(tokens));
            && Collecting(st, Between(tokens))
            && (tokens == [] || !tokens[|tokens| - 1].Unclosed? ==> st.quotes == OUTSIDE)
  {
    if tokens != [] {
      var init, t := tokens[..|tokens| - 1], tokens[|tokens| - 1];
      FeedReading(init);
      FeedAppend(State([], "", OUTSIDE), Source(init), Written(t));
      FeedToken(FeedAll(State([], "", OUTSIDE), Source(init)), Between(init), t);
    }
  }

  lemma FeedToken(st: State, pieces: seq<string>, t: Token)
    requires pieces != [] && Lexical(t) && st.quotes == OUTSIDE && Collecting(st, pieces)
    ensures Collecting(FeedAll(st, Written(t)), Continued(pieces, t))
    ensures !t.Unclosed? ==> FeedAll(st, Written(t)).quotes == OUTSIDE
  {
    var n := |pieces| - 1;
    assert !t.Separator? ==> (pieces[..n] + [pieces[n] + Written(t)])[..n] == pieces[..n];
    match t
    case Plain(text) => FeedCollects(st, text);
    case Quoted(quote, body) => FeedQuoted(st, quote, body);
    case Separator => FeedSeparator(st, pieces);
    case Unclosed(quote, body) => FeedUnclosed(st, quote, body);
  }

  lemma FeedSeparator(st: State, pieces: seq<string>)
    requires pieces != [] && st.quotes == OUTSIDE && Collecting(st, pieces)
    ensures Collecting(FeedAll(st, ";"), pieces + [""]) && FeedAll(st, ";").quotes == OUTSIDE
  {
    FeedLast(st, "", ';');
    assert "" + [';'] == ";";
    assert (pieces + [""])[..|pieces|] == pieces;
  }

  /** The split, read off any reading of the text: cut at the separators and nowhere inside
      a quotation, trim, and drop what is empty. */
  lemma SplitAtSeparators(tokens: seq<Token>)
    requires Reading(tokens)
    ensures Split(Source(tokens)) == Statements(Between(tokens))
  {
    FeedReading(tokens);
  }

  /** So every text splits at the separators of some reading. */
  lemma SplitExactly(sql: string) returns (tokens: seq<Token>)
    ensures Reading(tokens) && Source(tokens) == sql && Split(sql) == Statements(Between(tokens))
  {
    tokens := EveryTextReads(sql);
    SplitAtSeparators(tokens);
  }

  /** The tokens make one piece. */
  ghost predicate OnePiece(tokens: seq<Token>, text: string) {
    Between(tokens) == [text] && Source(tokens) == text
  }

  lemma PieceGrows(tokens: seq<Token>, text: string, t: Token)
    requires OnePiece(tokens, text) && !t.Separator?
    ensures OnePiece(tokens + [t], text + Written(t))
  {
    assert (tokens + [t])[..|tokens|] == tokens;
  }

  lemma OneQuotation(before: Token, quoted: Token, after: Token)
    requires before.Plain? && quoted.Quoted? && after.Plain?
    ensures OnePiece([before, quoted, after], before.text + Written(quoted) + after.text)
  {
    PlainPiece(before);
    PieceGrows([before], before.text, quoted);
    PieceGrows([before] + [quoted], before.text + Written(quoted), after);
    assert [before] + [quoted] + [after] == [before, quoted, after];
  }

  lemma PlainPiece(t: Token)
    requires t.Plain?
    ensures OnePiece([t], t.text)
  {
    assert [t][..0] == [] && Between([]) == [""];
    assert "" + t.text == t.text;
  }

  /** A quotation among plain text is never cut, whatever it contains. */
  lemma QuotedNeverCut(before: string, quote: char, body: string, after: string)
    requires IsQuote(quote) && quote !in body && Lexical(Plain(before)) && Lexical(Plain(after))
    ensures var text := before + ([quote] + body + [quote]) + after;
            Trim(text) != "" && Split(text) == [Trim(text)]
  {
    var quoted := Quoted(quote, body);
    var tokens := [Plain(before), quoted, Plain(after)];
    OneQuotation(Plain(before), quoted, Plain(after));
    OneStatement(tokens, before + Written(quoted) + after, |before|);
  }

  lemma OneStatement(tokens: seq<Token>, piece: string, i: nat)
    requires Reading(tokens) && OnePiece(tokens, piece)
    requires i < |piece| && !IsSpace(piece[i])
    ensures Trim(piece) != "" && Split(piece) == [Trim(piece)]
  {
    SplitAtSeparators(tokens);
    var a, b := TrimRemovesSpace(piece);
    assert Statements([]) == [];
  }
}
