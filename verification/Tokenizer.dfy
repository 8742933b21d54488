/** The command-line tokenizer: a two-quote, caret-escape state machine. */
module Tokenizer {
  import opened Quoting
  import opened Wrappers

  /** `strict` refuses unallowable characters; `oneToken` forbids bare white space. */
  datatype Options = Options(strict: bool, oneToken: bool)

  datatype State = State(
    inSingle: bool,
    inDouble: bool,
    transition: int,
    tokenStart: nat,
    lastIsSpace: bool,
    output: Str,
    tokens: seq<Str>)
  {
    predicate Quoted() {
      inSingle || inDouble
    }

    predicate Valid() {
      && !(inSingle && inDouble)
      && (lastIsSpace ==> output == [] && !Quoted())
    }
  }

  const START := State(false, false, -1, 0, true, [], [])

  datatype Stepped = Went(st: State, used: nat) | Stuck(error: Error)

  /** One round of the loop: the state after the character or escape at the front of s. */
  function Step(s: Str, pos: nat, st: State, o: Options): (r: Stepped)
    requires s != []
    ensures r.Went? ==> 1 <= r.used <= |s|
  {
    var c := s[0];
    var start := if st.lastIsSpace && !st.Quoted() && !IsSpace(c) then pos else st.tokenStart;
    if !st.Quoted() && IsSpace(c) then
      if o.oneToken then Stuck(Error(BareSpace, start, pos))
      else if st.lastIsSpace then Went(st.(tokenStart := start), 1)
      else Went(st.(tokenStart := start, lastIsSpace := true, output := [],
                    tokens := st.tokens + [st.output]), 1)
    else
      var st' := st.(tokenStart := start, lastIsSpace := false);
      if c != SINGLE && c != DOUBLE && c != CARET then
        if o.strict && Unallowable(c) then Stuck(Error(BadCharacter, start, pos))
        else Went(st'.(output := st.output + [c]), 1)
      else if c == DOUBLE then
        if st.inSingle then Went(st'.(output := st.output + [c]), 1)
        else Went(st'.(inDouble := !st.inDouble, transition := pos), 1)
      else if c == SINGLE then
        if st.inDouble then Went(st'.(output := st.output + [c]), 1)
        else Went(st'.(inSingle := !st.inSingle, transition := pos), 1)
      else
        match ReadEscape(s, true)
        case Bad(reason, offset) => Stuck(Error(reason, start, pos + offset))
        case Read(e, used) => Went(st'.(output := st.output + [e]), used)
  }

  /** Where the loop stops: at the end of the line, or stuck before `rest`. */
  datatype Scanned = Scanned(st: State, pos: nat, rest: Str, error: Option<Error>)

  function Scan(s: Str, pos: nat, st: State, o: Options): Scanned
    decreases |s|
  {
    if s == [] then Scanned(st, pos, s, None)
    else
      match Step(s, pos, st, o)
      case Stuck(e) => Scanned(st, pos, s, Some(e))
      case Went(st', used) => Scan(s[used..], pos + used, st', o)
  }

  function Finish(st: State): Result<seq<Str>, Error> {
    if st.inSingle then Err(Error(OpenSingle, st.tokenStart, st.transition))
    else if st.inDouble then Err(Error(OpenDouble, st.tokenStart, st.transition))
    else Ok(if st.lastIsSpace then st.tokens else st.tokens + [st.output])
  }

  /** An unfinished line (`completed` false) keeps its whole tokens and adds an empty one. */
  function Tokens(line: Str, completed: bool, o: Options): Result<seq<Str>, Error> {
    var r := Scan(line, 0, START, o);
    var end := if r.error.Some? then Err(r.error.value) else Finish(r.st);
    if end.Err? && !completed then Ok(r.st.tokens + [[]]) else end
  }

  /** What the handler around the loop makes of an error. */
  function Handle(e: Error, tokens: seq<Str>, completed: bool): Result<seq<Str>, Error> {
    if completed then Err(e) else Ok(tokens + [[]])
  }

  /** The body of the loop at position i. */
  method Round(line: Str, i: nat, st: State, o: Options) returns (r: Stepped)
    requires i < |line|
    ensures r == Step(line[i..], i, st, o)
  {
    hide ReadEscape;
    var next := st.(lastIsSpace := false);
    var c := line[i];
    if st.lastIsSpace && !st.inDouble && !st.inSingle && !IsSpace(c) {
      next := next.(tokenStart := i);
    }
    if !st.inDouble && !st.inSingle && IsSpace(c) {
      if o.oneToken {
        return Stuck(Error(BareSpace, next.tokenStart, i));
      }
      next := next.(lastIsSpace := true);
      if !st.lastIsSpace {
        next := next.(tokens := st.tokens + [st.output], output := []);
      }
    } else if c != SINGLE && c != DOUBLE && c != CARET {
      if o.strict && Unallowable(c) {
        return Stuck(Error(BadCharacter, next.tokenStart, i));
      }
      next := next.(output := st.output + [c]);
    } else if c == DOUBLE {
      if st.inSingle {
        next := next.(output := st.output + [c]);
      } else {
        next := next.(inDouble := !st.inDouble, transition := i);
      }
    } else if c == SINGLE {
      if st.inDouble {
        next := next.(output := st.output + [c]);
      } else {
        next := next.(inSingle := !st.inSingle, transition := i);
      }
    } else {
      var e := ReadEscapeAt(line, i, true);
      if e.Bad? {
        return Stuck(Error(e.reason, next.tokenStart, i + e.offset));
      }
      return Went(next.(output := st.output + [e.c]), e.used);
    }
    r := Went(next, 1);
  }

  method Tokenize(line: Str, completed: bool, o: Options) returns (r: Result<seq<Str>, Error>)
    ensures r == Tokens(line, completed, o)
  {
    hide Step;
    var st, i := START, 0;
    while i < |line|
      invariant 0 <= i <= |line|
      invariant Scan(line, 0, START, o) == Scan(line[i..], i, st, o)
    {
      var step := Round(line, i, st, o);
      if step.Stuck? {
        return Handle(step.error, st.tokens, completed);
      }
      assert line[i..][step.used..] == line[i + step.used..];
      st, i := step.st, i + step.used;
    }
    if st.inSingle {
      return Handle(Error(OpenSingle, st.tokenStart, st.transition), st.tokens, completed);
    }
    if st.inDouble {
      return Handle(Error(OpenDouble, st.tokenStart, st.transition), st.tokens, completed);
    }
    r := Ok(if st.lastIsSpace then st.tokens else st.tokens + [st.output]);
  }

  method Unquote(s: Str) returns (r: Result<Str, Error>)
    ensures r == Unquoted(s)
  {
    var t := Tokenize(s, true, Options(true, true));
    if t.Err? {
      return Err(t.error);
    }
    if |t.value| == 0 {
      r := Err(Error(NoToken, 0, 0));
    } else if |t.value| == 1 {
      r := Ok(t.value[0]);
    } else {
      r := Err(Error(ManyTokens, 0, 0));
    }
  }

  function Unquoted(s: Str): Result<Str, Error> {
    var t := Tokens(s, true, Options(true, true));
    if t.Err? then Err(t.error)
    else if |t.value| == 0 then Err(Error(NoToken, 0, 0))
    else if |t.value| == 1 then Ok(t.value[0])
    else Err(Error(ManyTokens, 0, 0))
  }
}
