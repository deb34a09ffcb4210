/** How xargs splits its input into arguments: `read_line`, as a function and as the loop. */
module XargsRead {
  import opened Wrappers
  import opened Bytes

  const NEWLINE: Byte := 10
  const TAB: Byte := 9
  const BLANK: Byte := 32
  const BACKSLASH: Byte := 92
  const SINGLE: Byte := 39
  const DOUBLE: Byte := 34

  predicate IsBlank(c: Byte) {
    c == TAB || c == BLANK
  }

  predicate IsSpace(c: Byte) {
    9 <= c <= 13 || c == BLANK
  }

  /** The logical end-of-file string, and how many bytes an argument may have. */
  datatype Config = Config(eofStr: Option<Text>, limit: nat)

  datatype Mode = NORM | SPACE | QUOTE(quotc: Byte) | BACKSLASHED

  /** The local variables: the buffer up to `p`, and the two flags. */
  datatype St = St(mode: Mode, buf: Text, first: bool, seenArg: bool)

  const START: St := St(SPACE, [], true, false)

  /** How one call ends: -1, a length, or one of the two messages. */
  datatype Return = MinusOne | Length(n: nat) | UnmatchedQuote | TooLong

  /** The arguments pushed, the answer, the input left, and the static end-of-file flag. */
  datatype Outcome = Outcome(pushed: seq<Text>, ret: Return, rest: seq<Byte>, eof: bool)

  predicate IsEofStr(cfg: Config, buf: Text) {
    cfg.eofStr.Some? && cfg.eofStr.value == CString(buf)
  }

  function Push(a: Text, o: Outcome): Outcome {
    o.(pushed := [a] + o.pushed)
  }

  const STUCK: Outcome := Outcome([], TooLong, [], false)

  /** `read_line` from the state `st` on. */
  function Go(st: St, input: seq<Byte>, cfg: Config): Outcome
    decreases |input|
  {
    if input == [] then
      if st.buf == [] then Outcome([], MinusOne, [], true)
      else if st.mode.QUOTE? then Outcome([], UnmatchedQuote, [], true)
      else if st.first && IsEofStr(cfg, st.buf) then Outcome([], MinusOne, [], true)
      else Outcome([CString(st.buf)], Length(|st.buf| + 1), [], true)
    else
      var c, rest := input[0], input[1..];
      match st.mode
      case SPACE =>
        if IsSpace(c) then Go(st, rest, cfg) else GoNorm(st, input, cfg)
      case NORM => GoNorm(st, input, cfg)
      case QUOTE(q) =>
        if c == NEWLINE then Outcome([], UnmatchedQuote, [], false)
        else if c == q then Go(st.(mode := NORM, seenArg := true), rest, cfg)
        else if |st.buf| >= cfg.limit then STUCK
        else Go(st.(buf := st.buf + [c]), rest, cfg)
      case BACKSLASHED =>
        if |st.buf| >= cfg.limit then STUCK
        else Go(st.(mode := NORM, buf := st.buf + [c]), rest, cfg)
  }

  /** The code behind the label NORM. */
  function GoNorm(st: St, input: seq<Byte>, cfg: Config): Outcome
    requires input != []
    decreases |input|, 0
  {
    var c, rest := input[0], input[1..];
    if c == NEWLINE then
      if st.buf == [] && !st.seenArg then Go(st.(mode := SPACE), rest, cfg)
      else if IsEofStr(cfg, st.buf) then Outcome([], if st.first then MinusOne else Length(|st.buf| + 1), rest, true)
      else Outcome([CString(st.buf)], Length(|st.buf| + 1), rest, false)
    else if IsBlank(c) then
      if IsEofStr(cfg, st.buf) then Outcome([], if st.first then MinusOne else Length(|st.buf| + 1), rest, true)
      else Push(CString(st.buf), Go(St(SPACE, [], false, true), rest, cfg))
    else if c == BACKSLASH then Go(st.(mode := BACKSLASHED, seenArg := true), rest, cfg)
    else if c == SINGLE || c == DOUBLE then Go(st.(mode := QUOTE(c), seenArg := true), rest, cfg)
    else if |st.buf| >= cfg.limit then STUCK
    else Go(st.(mode := NORM, buf := st.buf + [c], seenArg := true), rest, cfg)
  }

  lemma {:induction false} GoShrinks(st: St, input: seq<Byte>, cfg: Config)
    ensures var o := Go(st, input, cfg);
      |o.rest| <= |input| && (o.ret.Length? && !o.eof ==> |o.rest| < |input|)
    decreases |input|, 1
  {
    if input != [] {
      var c, rest := input[0], input[1..];
      match st.mode
      case SPACE =>
        if IsSpace(c) {
          GoShrinks(st, rest, cfg);
        } else {
          GoNormShrinks(st, input, cfg);
        }
      case NORM => GoNormShrinks(st, input, cfg);
      case QUOTE(_) =>
        GoShrinks(st.(mode := NORM, seenArg := true), rest, cfg);
        GoShrinks(st.(buf := st.buf + [c]), rest, cfg);
      case BACKSLASHED => GoShrinks(st.(mode := NORM, buf := st.buf + [c]), rest, cfg);
    }
  }

  lemma {:induction false} GoNormShrinks(st: St, input: seq<Byte>, cfg: Config)
    requires input != []
    ensures |GoNorm(st, input, cfg).rest| < |input|
    decreases |input|, 0
  {
    var c, rest := input[0], input[1..];
    GoShrinks(st.(mode := SPACE), rest, cfg);
    GoShrinks(St(SPACE, [], false, true), rest, cfg);
    GoShrinks(st.(mode := BACKSLASHED, seenArg := true), rest, cfg);
    GoShrinks(st.(mode := QUOTE(c), seenArg := true), rest, cfg);
    GoShrinks(st.(mode := NORM, buf := st.buf + [c], seenArg := true), rest, cfg);
  }

  datatype Finish = Done | BadQuote | LineTooLong

  /** The loop of `main`: read lines until -1. */
  function ReadAll(input: seq<Byte>, cfg: Config): (seq<Text>, Finish)
    decreases |input|, 1
  {
    var o := Go(START, input, cfg);
    GoShrinks(START, input, cfg);
    Carry(o, input, cfg)
  }

  /** What the loop makes of one call. */
  function Carry(o: Outcome, input: seq<Byte>, cfg: Config): (seq<Text>, Finish)
    requires o.ret.Length? && !o.eof ==> |o.rest| < |input|
    decreases |input|, 0
  {
    match o.ret
    case MinusOne => (o.pushed, Done)
    case UnmatchedQuote => (o.pushed, BadQuote)
    case TooLong => (o.pushed, LineTooLong)
    case Length(_) =>
      if o.eof then (o.pushed, Done)
      else
        var (more, finish) := ReadAll(o.rest, cfg);
        (o.pushed + more, finish)
  }

  // ---------------------------------------------------------------- the loop

  class Xargs {
    const cfg: Config
    const linebuf: array<Byte>
    var inputStream: seq<Byte>
    var eof: bool
    var pushed: seq<Text>           // the calls of bc_push_arg

    constructor (cfg: Config, input: seq<Byte>)
      ensures this.cfg == cfg && inputStream == input && !eof && pushed == [] && fresh(linebuf)
      ensures linebuf.Length == cfg.limit + 2
    {
      this.cfg := cfg;
      linebuf := new Byte[cfg.limit + 2](_ => 0);
      inputStream, eof, pushed := input, false, [];
    }

    /** `read_line`, while no end of file has been seen. */
    method ReadLine() returns (ret: Return)
      requires linebuf.Length == cfg.limit + 2 && !eof
      modifies this`inputStream, this`eof, this`pushed, linebuf
      ensures var o := Go(START, old(inputStream), cfg);
        && ret == o.ret && pushed == old(pushed) + o.pushed
        && (ret.MinusOne? || ret.Length? ==> eof == o.eof)
        && (ret.Length? ==> inputStream == o.rest)
    {
      var state, first, seenArg, p := SPACE, true, false, 0;
      ghost var before, input := pushed, inputStream;
      assert linebuf[..0] == [];
      assert pushed + Go(START, input, cfg).pushed == before + Go(START, input, cfg).pushed;
      while true
        invariant p <= cfg.limit && !eof
        invariant Same(before, Go(START, input, cfg), pushed,
          Go(St(state, linebuf[..p], first, seenArg), inputStream, cfg))
        decreases |inputStream|
      {
        if |inputStream| == 0 {
          eof := true;
          if p == 0 {
            return MinusOne;
          }
          var arg := CString(linebuf[..p]);
          if state.QUOTE? {
            return UnmatchedQuote;
          }
          if first && IsEofStr(cfg, linebuf[..p]) {
            return MinusOne;
          }
          pushed := pushed + [arg];
          return Length(p + 1);
        }
        ghost var all, norm := inputStream, GoNorm(St(state, linebuf[..p], first, seenArg), inputStream, cfg);
        var c := inputStream[0];
        inputStream := inputStream[1..];
        if state == SPACE {
          if IsSpace(c) {
            continue;
          }
          state := NORM;
        }
        if state == NORM {
          assert Same(before, Go(START, input, cfg), pushed, norm);
          if c == NEWLINE {
            if p == 0 && !seenArg {
              state := SPACE;
              continue;
            }
            if IsEofStr(cfg, linebuf[..p]) {
              eof := true;
              return if first then MinusOne else Length(p + 1);
            }
            pushed := pushed + [CString(linebuf[..p])];
            return Length(p + 1);
          }
          seenArg := true;
          if IsBlank(c) {
            if IsEofStr(cfg, linebuf[..p]) {
              eof := true;
              return if first then MinusOne else Length(p + 1);
            }
            pushed := pushed + [CString(linebuf[..p])];
            p, state, first := 0, SPACE, false;
            assert linebuf[..0] == [];
            continue;
          }
          if c == BACKSLASH {
            state := BACKSLASHED;
            continue;
          }
          if c == SINGLE || c == DOUBLE {
            state := QUOTE(c);
            continue;
          }
        } else if state.QUOTE? {
          if c == NEWLINE {
            return UnmatchedQuote;
          }
          if c == state.quotc {
            state, seenArg := NORM, true;
            continue;
          }
        } else {
          state := NORM;
        }
        if p >= cfg.limit {
          return TooLong;
        }
        linebuf[p] := c;
        assert linebuf[..p + 1] == linebuf[..p] + [c];
        p := p + 1;
      }
    }
  }

  /** The loop of `main` that reads until -1, or until a message ends the program. */
  method ReadLines(cfg: Config, input: seq<Byte>) returns (pushed: seq<Text>, finish: Finish)
    ensures (pushed, finish) == ReadAll(input, cfg)
  {
    var x := new Xargs(cfg, input);
    assert [] + ReadAll(input, cfg).0 == ReadAll(input, cfg).0;
    while true
      invariant x.cfg == cfg && x.linebuf.Length == cfg.limit + 2 && fresh(x) && fresh(x.linebuf) && !x.eof
      invariant ReadAll(input, cfg) == (x.pushed + ReadAll(x.inputStream, cfg).0, ReadAll(x.inputStream, cfg).1)
      decreases |x.inputStream|
    {
      ghost var before, here := x.pushed, x.inputStream;
      GoShrinks(START, here, cfg);
      ghost var o := Go(START, here, cfg);
      var ret := x.ReadLine();
      match ret {
        case MinusOne => return x.pushed, Done;
        case UnmatchedQuote => return x.pushed, BadQuote;
        case TooLong => return x.pushed, LineTooLong;
        case Length(_) =>
          if x.eof {
            return x.pushed, Done;   // the next call answers -1 at once
          }
          assert before + (o.pushed + ReadAll(o.rest, cfg).0) == before + o.pushed + ReadAll(o.rest, cfg).0;
      }
    }
  }

  /** The outcome of the call is what was pushed so far and what the rest will still do. */
  ghost predicate Same(before: seq<Text>, whole: Outcome, pushed: seq<Text>, rest: Outcome) {
    && whole.ret == rest.ret && whole.rest == rest.rest && whole.eof == rest.eof
    && before + whole.pushed == pushed + rest.pushed
  }
}
