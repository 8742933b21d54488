/** What the tokenizer promises: it undoes the quoter, and what it has read so far never
    changes when more of the line arrives. */
module TokenizerLaws {
  import opened Quoting
  import opened Tokenizer
  import opened Wrappers

  // ---- scanning is incremental ----

  /** A round that succeeds on s goes the same way however s continues. */
  lemma StepExtends(s: Str, q: Str, pos: nat, st: State, o: Options)
    requires s != [] && Step(s, pos, st, o).Went?
    ensures Step(s + q, pos, st, o) == Step(s, pos, st, o)
  {}

  /** Scanning p + q is scanning p and then scanning on from where that stopped. */
  lemma {:induction false} Resume(p: Str, q: Str, pos: nat, st: State, o: Options)
    ensures var r := Scan(p, pos, st, o);
            Scan(p + q, pos, st, o) == Scan(r.rest + q, r.pos, r.st, o)
    decreases |p|
  {
    hide Step;
    if p != [] {
      match Step(p, pos, st, o)
      case Stuck(e) =>
      case Went(st', used) =>
        StepExtends(p, q, pos, st, o);
        assert (p + q)[used..] == p[used..] + q;
        Resume(p[used..], q, pos + used, st', o);
    }
  }

  lemma {:induction false} ScanKeepsValid(s: Str, pos: nat, st: State, o: Options)
    requires st.Valid()
    ensures Scan(s, pos, st, o).st.Valid()
    decreases |s|
  {
    if s != [] {
      match Step(s, pos, st, o)
      case Stuck(e) =>
      case Went(st', used) => ScanKeepsValid(s[used..], pos + used, st', o);
    }
  }

  // ---- tokenizing what was quoted ----

  /** Where the scan stands after one quoted token that began at pos. */
  function AfterToken(st: State, pos: nat, raw: Str, force: bool): State {
    st.(tokenStart := pos,
        lastIsSpace := false,
        output := raw,
        transition := if raw == [] || force || NeedsQuotes(raw)
                      then pos + |Quote(raw, force)| - 1 else st.transition)
  }

  /** One averted character inside quotes goes to the output as itself. */
  lemma ScanAvertedChar(c: Chr, escapeDouble: bool, rest: Str, pos: nat, st: State, o: Options)
    requires !st.lastIsSpace && (st.inSingle != st.inDouble)
    requires st.inDouble && c == DOUBLE ==> escapeDouble
    requires st.inSingle ==> c != SINGLE
    ensures Scan(AvertChar(c, escapeDouble) + rest, pos, st, o)
         == Scan(rest, pos + |AvertChar(c, escapeDouble)|, st.(output := st.output + [c]), o)
  {
    var head := AvertChar(c, escapeDouble);
    var s := head + rest;
    assert s[|head|..] == rest;
    if Unallowable(c) {
      HexEscapeReads(c, rest, true);
    }
    assert Step(s, pos, st, o) == Went(st.(output := st.output + [c]), |head|);
  }

  lemma {:induction false} ScanAverted(raw: Str, escapeDouble: bool, rest: Str,
                                       pos: nat, st: State, o: Options)
    requires !st.lastIsSpace && (st.inSingle != st.inDouble)
    requires st.inDouble && DOUBLE in raw ==> escapeDouble
    requires st.inSingle ==> SINGLE !in raw
    ensures Scan(Avert(raw, escapeDouble) + rest, pos, st, o)
         == Scan(rest, pos + |Avert(raw, escapeDouble)|, st.(output := st.output + raw), o)
    decreases |raw|
  {
    hide AvertChar, Step, Scan;
    if raw == [] {
      assert st.output + raw == st.output;
      assert Avert(raw, escapeDouble) + rest == rest;
    } else {
      var head, tail := AvertChar(raw[0], escapeDouble), Avert(raw[1..], escapeDouble);
      assert (head + tail) + rest == head + (tail + rest);
      ScanAvertedChar(raw[0], escapeDouble, tail + rest, pos, st, o);
      var st' := st.(output := st.output + [raw[0]]);
      ScanAverted(raw[1..], escapeDouble, rest, pos + |head|, st', o);
      assert st.output + raw == st'.output + raw[1..];
    }
  }

  /** Characters that need no quoting go to the output as themselves. */
  lemma {:induction false} ScanPlain(raw: Str, rest: Str, pos: nat, st: State, o: Options)
    requires !st.lastIsSpace && !st.Quoted()
    requires forall i :: 0 <= i < |raw| ==> !Special(raw[i])
    ensures Scan(raw + rest, pos, st, o)
         == Scan(rest, pos + |raw|, st.(output := st.output + raw), o)
    decreases |raw|
  {
    if raw == [] {
      assert raw + rest == rest;
      assert st.output + raw == st.output;
    } else {
      var st' := st.(output := st.output + [raw[0]]);
      assert !Special(raw[0]);
      assert Step(raw + rest, pos, st, o) == Went(st', 1);
      assert (raw + rest)[1..] == raw[1..] + rest;
      ScanPlain(raw[1..], rest, pos + 1, st', o);
      assert st.output + raw == st'.output + raw[1..];
    }
  }

  /** The opening quote: a token starts and a quoted section opens. */
  lemma ScanOpen(q: Chr, rest: Str, pos: nat, st: State, o: Options)
    requires q == SINGLE || q == DOUBLE
    requires st.lastIsSpace && st.Valid()
    ensures Scan([q] + rest, pos, st, o)
         == Scan(rest, pos + 1, st.(tokenStart := pos, lastIsSpace := false, transition := pos,
                                    inSingle := q == SINGLE, inDouble := q == DOUBLE), o)
  {}

  lemma ScanClose(q: Chr, rest: Str, pos: nat, st: State, o: Options)
    requires !st.lastIsSpace
    requires (q == SINGLE && st.inSingle && !st.inDouble) || (q == DOUBLE && st.inDouble && !st.inSingle)
    ensures Scan([q] + rest, pos, st, o)
         == Scan(rest, pos + 1, st.(transition := pos, inSingle := false, inDouble := false), o)
  {}

  lemma ScanSection(q: Chr, raw: Str, escapeDouble: bool, rest: Str, pos: nat, st: State, o: Options)
    requires q == SINGLE || q == DOUBLE
    requires st.lastIsSpace && st.Valid()
    requires q == DOUBLE && DOUBLE in raw ==> escapeDouble
    requires q == SINGLE ==> SINGLE !in raw
    ensures Scan([q] + Avert(raw, escapeDouble) + [q] + rest, pos, st, o)
         == Scan(rest, pos + |Avert(raw, escapeDouble)| + 2,
                 st.(tokenStart := pos, lastIsSpace := false, output := raw,
                     transition := pos + |Avert(raw, escapeDouble)| + 1), o)
  {
    hide Scan, Avert;
    var body := Avert(raw, escapeDouble);
    var st1 := st.(tokenStart := pos, lastIsSpace := false, transition := pos,
                   inSingle := q == SINGLE, inDouble := q == DOUBLE);
    var st2 := st1.(output := raw);
    assert [q] + body + [q] + rest == [q] + (body + ([q] + rest));
    ScanOpen(q, body + ([q] + rest), pos, st, o);
    ScanAverted(raw, escapeDouble, [q] + rest, pos + 1, st1, o);
    assert st1.output + raw == raw;
    ScanClose(q, rest, pos + 1 + |body|, st2, o);
  }

  lemma ScanBare(raw: Str, rest: Str, pos: nat, st: State, o: Options)
    requires st.lastIsSpace && st.Valid() && !NeedsQuotes(raw)
    ensures Scan(raw + rest, pos, st, o)
         == Scan(rest, pos + |raw|, st.(tokenStart := pos, lastIsSpace := false, output := raw), o)
  {
    var st1 := st.(tokenStart := pos, lastIsSpace := false, output := [raw[0]]);
    assert !Special(raw[0]);
    assert (raw + rest)[0] == raw[0];
    assert Step(raw + rest, pos, st, o) == Went(st1, 1);
    assert (raw + rest)[1..] == raw[1..] + rest;
    hide Step;
    ScanPlain(raw[1..], rest, pos + 1, st1, o);
    assert st1.output + raw[1..] == raw;
  }

  /** The quote mark and the escaping that Quote picks when it quotes at all. */
  lemma QuoteForm(raw: Str, force: bool) returns (q: Chr, escapeDouble: bool)
    requires raw == [] || force || NeedsQuotes(raw)
    ensures q == SINGLE || q == DOUBLE
    ensures q == DOUBLE && DOUBLE in raw ==> escapeDouble
    ensures q == SINGLE ==> SINGLE !in raw
    ensures Quote(raw, force) == [q] + Avert(raw, escapeDouble) + [q]
  {
    hide NeedsQuotes;
    q := if DOUBLE !in raw || SINGLE in raw then DOUBLE else SINGLE;
    escapeDouble := DOUBLE in raw && SINGLE in raw;
    if raw == [] {
      assert [q] + Avert(raw, escapeDouble) + [q] == [DOUBLE, DOUBLE];
    }
  }

  /** Scanning a quoted string collects exactly that string, whatever follows it. */
  lemma ScanQuote(raw: Str, force: bool, rest: Str, pos: nat, st: State, o: Options)
    requires st.lastIsSpace && st.Valid()
    ensures Scan(Quote(raw, force) + rest, pos, st, o)
         == Scan(rest, pos + |Quote(raw, force)|, AfterToken(st, pos, raw, force), o)
  {
    hide Scan, Step, NeedsQuotes, Avert;
    if raw == [] || force || NeedsQuotes(raw) {
      hide Quote;
      var q, escapeDouble := QuoteForm(raw, force);
      ScanSection(q, raw, escapeDouble, rest, pos, st, o);
    } else {
      ScanBare(raw, rest, pos, st, o);
    }
  }

  predicate Blank(gap: Str) {
    forall i :: 0 <= i < |gap| ==> IsSpace(gap[i])
  }

  /** The line that holds the given strings, quoted, each before its own run of blanks. */
  function Line(raws: seq<Str>, force: seq<bool>, gaps: seq<Str>): Str
    requires |raws| == |force| == |gaps|
  {
    if raws == [] then []
    else Quote(raws[0], force[0]) + gaps[0] + Line(raws[1..], force[1..], gaps[1..])
  }

  /** More blanks after a blank change nothing. */
  lemma {:induction false} ScanBlanks(gap: Str, rest: Str, pos: nat, st: State, o: Options)
    requires st.lastIsSpace && st.Valid() && Blank(gap) && !o.oneToken
    ensures Scan(gap + rest, pos, st, o) == Scan(rest, pos + |gap|, st, o)
    decreases |gap|
  {
    if gap == [] {
      assert gap + rest == rest;
    } else {
      assert Step(gap + rest, pos, st, o) == Went(st, 1);
      assert (gap + rest)[1..] == gap[1..] + rest;
      ScanBlanks(gap[1..], rest, pos + 1, st, o);
    }
  }

  /** A run of blanks after a token ends it. */
  lemma ScanGap(gap: Str, rest: Str, pos: nat, st: State, o: Options)
    requires !st.lastIsSpace && !st.Quoted() && gap != [] && Blank(gap) && !o.oneToken
    ensures Scan(gap + rest, pos, st, o)
         == Scan(rest, pos + |gap|,
                 st.(tokens := st.tokens + [st.output], output := [], lastIsSpace := true), o)
  {
    var st' := st.(tokens := st.tokens + [st.output], output := [], lastIsSpace := true);
    assert Step(gap + rest, pos, st, o) == Went(st', 1);
    assert (gap + rest)[1..] == gap[1..] + rest;
    ScanBlanks(gap[1..], rest, pos + 1, st', o);
  }

  /** From between tokens, the rest of the line contributes exactly its strings. */
  lemma {:induction false} ScanLine(raws: seq<Str>, force: seq<bool>, gaps: seq<Str>,
                                    pos: nat, st: State, o: Options)
    requires |raws| == |force| == |gaps|
    requires st.lastIsSpace && st.Valid() && !o.oneToken
    requires forall i :: 0 <= i < |gaps| ==> Blank(gaps[i])
    requires forall i :: 0 <= i < |gaps| - 1 ==> gaps[i] != []
    ensures var r := Scan(Line(raws, force, gaps), pos, st, o);
            r.error == None && Finish(r.st) == Ok(st.tokens + raws)
    decreases |raws|
  {
    hide Step, Quote, NeedsQuotes;
    if raws == [] {
      assert st.tokens + raws == st.tokens;
    } else {
      var q, gap := Quote(raws[0], force[0]), gaps[0];
      var rest := Line(raws[1..], force[1..], gaps[1..]);
      var st1 := AfterToken(st, pos, raws[0], force[0]);
      assert q + gap + rest == q + (gap + rest);
      ScanQuote(raws[0], force[0], gap + rest, pos, st, o);
      if gap == [] {
        assert |raws| == 1;
        assert gap + rest == [];
        assert raws == [raws[0]];
      } else {
        var st2 := st1.(tokens := st.tokens + [raws[0]], output := [], lastIsSpace := true);
        ScanGap(gap, rest, pos + |q|, st1, o);
        ScanLine(raws[1..], force[1..], gaps[1..], pos + |q| + |gap|, st2, o);
        assert st.tokens + raws == st2.tokens + raws[1..];
      }
    }
  }

  /** tokenize undoes quoting, for every list of strings: quote each one, put blanks between
      them, and the tokens are the strings again. */
  lemma TokenizeUndoesQuote(lead: Str, raws: seq<Str>, force: seq<bool>, gaps: seq<Str>,
                            completed: bool, strict: bool)
    requires |raws| == |force| == |gaps|
    requires Blank(lead)
    requires forall i :: 0 <= i < |gaps| ==> Blank(gaps[i])
    requires forall i :: 0 <= i < |gaps| - 1 ==> gaps[i] != []
    ensures Tokens(lead + Line(raws, force, gaps), completed, Options(strict, false)) == Ok(raws)
  {
    hide Step, Scan, Finish;
    var o := Options(strict, false);
    ScanBlanks(lead, Line(raws, force, gaps), 0, START, o);
    ScanLine(raws, force, gaps, |lead|, START, o);
    assert START.tokens + raws == raws;
  }

  /** A quoted string, read alone, is the string again. */
  lemma UnquoteUndoesQuote(raw: Str, force: bool)
    ensures Unquoted(Quote(raw, force)) == Ok(raw)
  {
    hide Step, Quote, NeedsQuotes;
    var o := Options(true, true);
    ScanQuote(raw, force, [], 0, START, o);
    assert Quote(raw, force) + [] == Quote(raw, force);
    var st := AfterToken(START, 0, raw, force);
    assert Scan([], |Quote(raw, force)|, st, o) == Scanned(st, |Quote(raw, force)|, [], None);
    assert START.tokens + [raw] == [raw];
  }

  /** So no two strings are quoted alike. */
  lemma QuoteInjective(a: Str, b: Str, f: bool, g: bool)
    requires Quote(a, f) == Quote(b, g)
    ensures a == b
  {
    hide Quote, Unquoted;
    UnquoteUndoesQuote(a, f);
    UnquoteUndoesQuote(b, g);
  }

  // ---- unfinished lines ----

  /** Finished tokens stay, and the token in progress only gets longer. */
  lemma {:induction false} TokensGrow(s: Str, pos: nat, st: State, o: Options)
    requires st.Valid()
    requires var r := Scan(s, pos, st, o); r.error == None && Finish(r.st).Ok?
    ensures var us := Finish(Scan(s, pos, st, o).st).value;
            && st.tokens <= us
            && (!st.lastIsSpace ==> |st.tokens| < |us| && st.output <= us[|st.tokens|])
    decreases |s|
  {
    hide Step, Finish;
    if s == [] {
      FinishGrows(st);
    } else {
      var step := Step(s, pos, st, o);
      StepGrows(s, pos, st, o);
      TokensGrow(s[step.used..], pos + step.used, step.st, o);
      GrowthChains(st, step.st, Finish(Scan(s, pos, st, o).st).value);
    }
  }

  lemma FinishGrows(st: State)
    requires Finish(st).Ok?
    ensures st.tokens <= Finish(st).value
    ensures !st.lastIsSpace ==> Finish(st).value == st.tokens + [st.output]
  {}

  lemma GrowthChains(st: State, st': State, us: seq<Str>)
    requires st'.tokens == st.tokens || st'.tokens == st.tokens + [st.output]
    requires !st.lastIsSpace ==> st'.lastIsSpace == (st'.tokens != st.tokens)
    requires !st.lastIsSpace && !st'.lastIsSpace ==> st.output <= st'.output
    requires st'.tokens <= us
    requires !st'.lastIsSpace ==> |st'.tokens| < |us| && st'.output <= us[|st'.tokens|]
    ensures st.tokens <= us
    ensures !st.lastIsSpace ==> |st.tokens| < |us| && st.output <= us[|st.tokens|]
  {}

  lemma StepGrows(s: Str, pos: nat, st: State, o: Options)
    requires st.Valid() && s != []
    requires Step(s, pos, st, o).Went?
    ensures var st' := Step(s, pos, st, o).st;
            && st'.Valid()
            && (st'.tokens == st.tokens || st'.tokens == st.tokens + [st.output])
            && (!st.lastIsSpace ==> st'.lastIsSpace == (st'.tokens != st.tokens))
            && (st.lastIsSpace ==> st'.tokens == st.tokens)
            && (!st.lastIsSpace && !st'.lastIsSpace ==> st.output <= st'.output)
  {}

  /** What completion shows for a prefix p is still right for every valid line p + q. If p ends
      between tokens, its tokens are the line's first tokens. If it breaks off inside an escape
      or inside quotes, they are followed by an empty stand-in for one more token that the line
      has. If it ends inside a bare token, that token is shown and the line's own begins with
      it. */
  lemma PrefixStable(p: Str, q: Str, strict: bool)
    requires Tokens(p + q, true, Options(strict, false)).Ok?
    ensures var o := Options(strict, false);
            var r := Scan(p, 0, START, o);
            var shown := Tokens(p, false, o);
            var us := Tokens(p + q, true, o).value;
            && shown.Ok? && r.st.tokens <= us
            && (if r.error.Some? || r.st.Quoted() then
                  shown.value == r.st.tokens + [[]] && |r.st.tokens| < |us|
                else if r.st.lastIsSpace then
                  shown.value == r.st.tokens
                else
                  && shown.value == r.st.tokens + [r.st.output] && |r.st.tokens| < |us|
                  && r.st.output <= us[|r.st.tokens|])
  {
    hide Step;
    var o := Options(strict, false);
    var r := Scan(p, 0, START, o);
    Resume(p, q, 0, START, o);
    ScanKeepsValid(p, 0, START, o);
    TokensGrow(r.rest + q, r.pos, r.st, o);
    if r.error.Some? {
      StuckInToken(p, q, strict);
    }
  }

  /** Once stuck, only a line that continues an escape can still become valid, and then a
      token is in progress. */
  lemma StuckInToken(p: Str, q: Str, strict: bool)
    requires Scan(p, 0, START, Options(strict, false)).error.Some?
    requires Tokens(p + q, true, Options(strict, false)).Ok?
    ensures |Scan(p, 0, START, Options(strict, false)).st.tokens|
          < |Tokens(p + q, true, Options(strict, false)).value|
  {
    hide Step;
    var o := Options(strict, false);
    var r := Scan(p, 0, START, o);
    ScanStops(p, 0, START, o);
    ScanKeepsValid(p, 0, START, o);
    Resume(p, q, 0, START, o);
    var s := r.rest + q;
    var step := Step(s, r.pos, r.st, o);
    UnstuckInToken(r.rest, q, r.pos, r.st, o);
    TokensGrow(s[step.used..], r.pos + step.used, step.st, o);
  }

  lemma UnstuckInToken(s: Str, q: Str, pos: nat, st: State, o: Options)
    requires s != [] && st.Valid() && !o.oneToken
    requires Step(s, pos, st, o).Stuck?
    ensures var r := Step(s + q, pos, st, o);
            r.Went? ==> r.st.Valid() && !r.st.lastIsSpace && r.st.tokens == st.tokens
  {}

  lemma {:induction false} ScanStops(s: Str, pos: nat, st: State, o: Options)
    ensures var r := Scan(s, pos, st, o);
            if r.error == None then r.rest == []
            else r.rest != [] && Step(r.rest, r.pos, r.st, o) == Stuck(r.error.value)
    decreases |s|
  {
    hide Step;
    if s != [] {
      match Step(s, pos, st, o)
      case Stuck(e) =>
      case Went(st', used) => ScanStops(s[used..], pos + used, st', o);
    }
  }

  /** The line ended too early, rather than going wrong. */
  predicate Unfinished(r: Scanned) {
    r.error == None
    || r.error.value.reason == CaretAtEnd
    || (r.error.value.reason.HexShort? && forall c :: c in r.error.value.reason.seen ==> IsHex(c))
  }

  /** A prefix can be completed to a valid line exactly when it is unfinished. */
  lemma CompletableIff(p: Str, o: Options)
    ensures (exists q: Str :: Tokens(p + q, true, o).Ok?) <==> Unfinished(Scan(p, 0, START, o))
  {
    hide Step, Tokens;
    if Unfinished(Scan(p, 0, START, o)) {
      var q := Completion(p, o);
      assert Tokens(p + q, true, o).Ok?;
    } else {
      forall q: Str
        ensures !Tokens(p + q, true, o).Ok?
      {
        WrongStaysWrong(p, q, o);
      }
    }
  }

  lemma WrongStaysWrong(p: Str, q: Str, o: Options)
    requires !Unfinished(Scan(p, 0, START, o))
    ensures !Tokens(p + q, true, o).Ok?
  {
    var r := Scan(p, 0, START, o);
    Resume(p, q, 0, START, o);
    ScanStops(p, 0, START, o);
    StuckExtends(r.rest, q, r.pos, r.st, o);
    hide Step;
  }

  /** A round that goes wrong for good goes wrong however the line continues. */
  lemma StuckExtends(s: Str, q: Str, pos: nat, st: State, o: Options)
    requires s != [] && Step(s, pos, st, o).Stuck?
    requires !Unfinished(Scanned(st, pos, s, Some(Step(s, pos, st, o).error)))
    ensures Step(s + q, pos, st, o).Stuck?
  {}

  /** The quote that is still open, if any. */
  function Closing(st: State): Str {
    if st.inDouble then [DOUBLE] else if st.inSingle then [SINGLE] else []
  }

  lemma CloseFinishes(pos: nat, st: State, o: Options)
    requires st.Valid()
    ensures var r := Scan(Closing(st), pos, st, o); r.error == None && Finish(r.st).Ok?
  {}

  /** The rest of the escape that was cut off. */
  function EscapeTail(reason: Reason): Str {
    match reason
    case CaretAtEnd => [CARET]
    case HexShort(seen) => if seen == [] then ['2', '0'] else ['0']
    case _ => []
  }

  /** Finishing the escape and closing the quote makes an unfinished line valid. */
  lemma Completion(p: Str, o: Options) returns (q: Str)
    requires Unfinished(Scan(p, 0, START, o))
    ensures Tokens(p + q, true, o).Ok?
  {
    hide Step, Closing;
    var r := Scan(p, 0, START, o);
    ScanStops(p, 0, START, o);
    ScanKeepsValid(p, 0, START, o);
    q := Closing(r.st);
    if r.error == None {
      CloseFinishes(r.pos, r.st, o);
      assert r.rest + q == q;
    } else {
      var tail := EscapeTail(r.error.value.reason);
      q := tail + Closing(r.st);
      var st' := FinishEscape(r, q, o);
      assert (r.rest + q)[|r.rest + tail|..] == Closing(st');
      CloseFinishes(r.pos + |r.rest + tail|, st', o);
    }
    Resume(p, q, 0, START, o);
  }

  lemma FinishEscape(r: Scanned, q: Str, o: Options) returns (st': State)
    requires r.error.Some? && Unfinished(r) && r.rest != [] && r.st.Valid()
    requires Step(r.rest, r.pos, r.st, o) == Stuck(r.error.value)
    requires EscapeTail(r.error.value.reason) <= q
    ensures st'.Valid() && Closing(st') == Closing(r.st)
    ensures Step(r.rest + q, r.pos, r.st, o)
         == Went(st', |r.rest + EscapeTail(r.error.value.reason)|)
  {
    var s := r.rest + q;
    assert r.rest[0] == CARET && !(!r.st.Quoted() && IsSpace(CARET));
    assert ReadEscape(s, true).Read? && ReadEscape(s, true).used == |r.rest + EscapeTail(r.error.value.reason)|;
    st' := Step(s, r.pos, r.st, o).st;
  }
}
