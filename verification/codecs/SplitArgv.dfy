/** esp_console_split_argv: splitting a command line into arguments inside its own buffer. */
module SplitArgv {

  type Text = seq<char>

  const NUL: char := '\0'
  const QUOTE: char := '\"'
  const ESCAPE: char := '\\'
  const SPACE: char := ' '

  /** split_state_t. */
  datatype State = Space | Arg | QuotedArg | ArgEscaped | QuotedArgEscaped

  // ---------- What the loop computes ----------

  /** One character: the next state, the character put out if any, and whether an argument ends. */
  datatype Effect = Effect(state: State, out: Text, ends: bool)

  function Escapable(c: char): bool { c == ESCAPE || c == QUOTE || c == SPACE }

  function Step(st: State, c: char): Effect {
    match st
    case Space =>
      if c == SPACE then Effect(Space, [], false)
      else if c == QUOTE then Effect(QuotedArg, [], false)
      else if c == ESCAPE then Effect(ArgEscaped, [], false)
      else Effect(Arg, [c], false)
    case QuotedArg =>
      if c == QUOTE then Effect(Space, [], true)
      else if c == ESCAPE then Effect(QuotedArgEscaped, [], false)
      else Effect(QuotedArg, [c], false)
    case ArgEscaped => Effect(Arg, if Escapable(c) then [c] else [], false)
    case QuotedArgEscaped => Effect(QuotedArg, if Escapable(c) then [c] else [], false)
    case Arg =>
      if c == SPACE then Effect(Space, [], true)
      else if c == ESCAPE then Effect(ArgEscaped, [], false)
      else Effect(Arg, [c], false)
  }

  /** The arguments found in `s`, given the state, the characters of the argument begun, and the arguments
      already complete; at most `limit` in all. */
  function SplitFrom(s: Text, st: State, cur: Text, args: seq<Text>, limit: nat): seq<Text>
    decreases |s|
  {
    if |args| >= limit then args
    else if s == [] then if st == Space then args else args + [cur]
    else
      var e := Step(st, s[0]);
      if e.ends then SplitFrom(s[1..], Space, [], args + [cur], limit)
      else SplitFrom(s[1..], e.state, cur + e.out, args, limit)
  }

  function Split(s: Text, limit: nat): seq<Text> { SplitFrom(s, Space, [], [], limit) }

  // ---------- In place ----------

  /** The NUL-terminated string at position p. */
  ghost predicate StringAt(buf: Text, p: nat, s: Text) {
    p + |s| < |buf| && buf[p..p + |s|] == s && buf[p + |s|] == NUL && NUL !in s
  }

  ghost predicate StringsAt(buf: Text, argv: seq<nat>, args: seq<Text>, end: nat) {
    |argv| == |args| && end <= |buf|
    && forall k :: 0 <= k < |argv| ==> argv[k] + |args[k]| < end && StringAt(buf, argv[k], args[k])
  }

  /** How the buffer looks while position `i` is read and position `out` is written: complete arguments,
      then the argument begun, then the unread rest of the original text. */
  ghost predicate Laid(buf: Text, was: Text, len: nat, argv: seq<nat>, args: seq<Text>, cur: Text,
                       st: State, start: nat, out: nat, i: nat)
  {
    && out <= i <= len < |was| == |buf|
    && buf[i..] == was[i..]
    && NUL !in was[..len] && was[len] == NUL && NUL !in cur
    && StringsAt(buf, argv, args, if st == Space then out else start)
    && (if st == Space then cur == [] else start <= out && buf[start..out] == cur)
  }

  /** An element of argv: where an argument begins in the line, or NULL. */
  datatype Pointer = Null | At(offset: nat)

  function Offsets(ps: seq<Pointer>): seq<nat>
    requires forall k :: 0 <= k < |ps| ==> ps[k].At?
  {
    seq(|ps|, k requires 0 <= k < |ps| => ps[k].offset)
  }

  /** `line` holds a string of `len` characters. Afterwards argv holds the arguments, closed by NULL;
      writing stays inside the string, behind the reading position. */
  method SplitInPlace(line: array<char>, ghost len: nat, argv: array<Pointer>) returns (argc: nat)
    requires 1 <= argv.Length
    requires len < line.Length && StringAt(line[..], 0, line[..len])
    modifies line, argv
    ensures argc < argv.Length && argv[argc] == Null && forall k :: 0 <= k < argc ==> argv[k].At?
    ensures StringsAt(line[..], Offsets(argv[..argc]), Split(old(line[..len]), argv.Length - 1), len + 1)
    ensures line[len + 1..] == old(line[len + 1..])
    ensures forall k :: argc < k < argv.Length ==> argv[k] == old(argv[k])
  {
    hide StringsAt, Laid, SplitFrom, StringAt;
    ghost var was, starts: seq<nat> := line[..], [];
    ghost var limit := argv.Length - 1;
    ghost var cur: Text, args: seq<Text> := [], [];
    argc := 0;
    var st, start, out, i := Space, 0, 0, 0;
    Start(was, len);
    while argc < argv.Length - 1 && line[i] != NUL
      invariant 0 <= out <= i <= len < line.Length
      invariant argc == |starts| == |args| <= limit
      invariant forall k :: 0 <= k < argc ==> argv[k] == At(starts[k])
      invariant forall k :: argc <= k < argv.Length ==> argv[k] == old(argv[k])
      invariant Laid(line[..], was, len, starts, args, cur, st, start, out, i)
      invariant SplitFrom(was[i..len], st, cur, args, limit) == Split(was[..len], limit)
      decreases len - i
    {
      ghost var before := line[..];
      ReadNext(before, was, len, starts, args, cur, st, start, out, i, limit);
      var e := Step(st, line[i]);
      ghost var start0 := start;
      if st == Space && e.state != Space {
        start := out;
      }
      if e.ends {
        line[out] := NUL;
        EndArgument(before, was, len, starts, args, cur, st, start, out, i);
        assert line[..] == before[out := NUL];
        argv[argc] := At(start);
        argc := argc + 1;
        starts, args, cur := starts + [start], args + [cur], [];
        out := out + 1;
      } else if e.out != [] {
        line[out] := e.out[0];
        PutOut(before, was, len, starts, args, cur, st, start0, start, out, i, e);
        assert line[..] == before[out := e.out[0]];
        cur := cur + e.out;
        out := out + 1;
      } else {
        PutNothing(before, was, len, starts, args, cur, st, start0, start, out, i, e);
        assert line[..] == before;
        cur := cur + e.out;
      }
      st := e.state;
      i := i + 1;
    }
    ghost var before := line[..];
    AtEnd(before, was, len, starts, args, cur, st, start, out, i, limit);
    line[out] := NUL;
    assert line[..] == before[out := NUL];
    if st != Space && argc < argv.Length - 1 {
      argv[argc] := At(start);
      argc := argc + 1;
      starts := starts + [start];
    }
    argv[argc] := Null;
    assert Offsets(argv[..argc]) == starts;
  }

  lemma {:induction false} Start(was: Text, len: nat)
    requires len < |was| && StringAt(was, 0, was[..len])
    ensures Laid(was, was, len, [], [], [], Space, 0, 0, 0) && was[0..len] == was[..len]
  {
  }

  /** The character read is the original one, and reading it is one step of the specification. */
  lemma {:induction false} ReadNext(buf: Text, was: Text, len: nat, argv: seq<nat>, args: seq<Text>, cur: Text,
                                    st: State, start: nat, out: nat, i: nat, limit: nat)
    requires Laid(buf, was, len, argv, args, cur, st, start, out, i) && |args| < limit && i < |buf| && buf[i] != NUL
    ensures i < len
    ensures var e := Step(st, buf[i]);
            SplitFrom(was[i..len], st, cur, args, limit)
            == if e.ends then SplitFrom(was[i + 1..len], Space, [], args + [cur], limit)
               else SplitFrom(was[i + 1..len], e.state, cur + e.out, args, limit)
    ensures Step(st, buf[i]).ends ==> Step(st, buf[i]).state == Space && st != Space
  {
    hide StringsAt, Step;
    assert buf[i] == buf[i..][0] == was[i..][0] == was[i];
    StepEnds(st, buf[i]);
    assert was[i..len][0] == was[i] && was[i..len][1..] == was[i + 1..len];
  }

  lemma {:induction false} StepEnds(st: State, c: char)
    ensures Step(st, c).ends ==> Step(st, c).state == Space && st != Space
    ensures st != Space && !Step(st, c).ends ==> Step(st, c).state != Space
    ensures st == Space && Step(st, c).state == Space ==> Step(st, c).out == []
    ensures |Step(st, c).out| <= 1 && (Step(st, c).out != [] ==> Step(st, c).out[0] == c)
  {
  }

  lemma {:induction false} EndArgument(buf: Text, was: Text, len: nat, argv: seq<nat>, args: seq<Text>, cur: Text,
                                       st: State, start: nat, out: nat, i: nat)
    requires Laid(buf, was, len, argv, args, cur, st, start, out, i) && st != Space && i < len && out < |buf|
    ensures Laid(buf[out := NUL], was, len, argv + [start], args + [cur], [], Space, start, out + 1, i + 1)
  {
    hide StringsAt;
    var buf' := buf[out := NUL];
    assert buf'[i + 1..] == buf[i..][1..] == was[i + 1..];
    ArgumentEnds(buf, buf', argv, args, cur, start, out);
  }

  lemma {:induction false} PutOut(buf: Text, was: Text, len: nat, argv: seq<nat>, args: seq<Text>, cur: Text,
                                  st: State, start: nat, start': nat, out: nat, i: nat, e: Effect)
    requires Laid(buf, was, len, argv, args, cur, st, start, out, i) && i < len && out < |buf| && i < |buf|
    requires e == Step(st, buf[i]) && e.out != [] && !e.ends
    requires start' == if st == Space && e.state != Space then out else start
    ensures Laid(buf[out := e.out[0]], was, len, argv, args, cur + e.out, e.state, start', out + 1, i + 1)
  {
    hide Step;
    StepEnds(st, buf[i]);
    var buf' := buf[out := e.out[0]];
    assert buf'[i + 1..] == buf[i..][1..] == was[i + 1..];
    assert buf[i] == buf[i..][0] == was[i..][0] == was[..len][i];
    assert e.out == [e.out[0]];
    var end := if st == Space then out else start;
    assert buf'[..end] == buf[..end];
    StringsGrow(buf, buf', argv, args, end, end);
    hide StringsAt;
    assert buf'[start'..out + 1] == buf[start'..out] + e.out;
  }

  lemma {:induction false} PutNothing(buf: Text, was: Text, len: nat, argv: seq<nat>, args: seq<Text>, cur: Text,
                                      st: State, start: nat, start': nat, out: nat, i: nat, e: Effect)
    requires Laid(buf, was, len, argv, args, cur, st, start, out, i) && i < len && i < |buf|
    requires e == Step(st, buf[i]) && e.out == [] && !e.ends
    requires start' == if st == Space && e.state != Space then out else start
    ensures Laid(buf, was, len, argv, args, cur + e.out, e.state, start', out, i + 1)
  {
    hide Step, StringsAt;
    StepEnds(st, buf[i]);
    assert buf[i + 1..] == buf[i..][1..] == was[i + 1..];
    assert cur + e.out == cur;
  }

  /** The last argument, if one has been begun and there is still room for it, ends with the text. */
  lemma {:induction false} AtEnd(buf: Text, was: Text, len: nat, argv: seq<nat>, args: seq<Text>, cur: Text,
                                 st: State, start: nat, out: nat, i: nat, limit: nat)
    requires Laid(buf, was, len, argv, args, cur, st, start, out, i) && |args| <= limit
    requires |args| == limit || (i < |buf| && buf[i] == NUL)
    ensures out < |buf|
    ensures buf[out := NUL][len + 1..] == was[len + 1..]
    ensures var last := st != Space && |args| < limit;
            && SplitFrom(was[i..len], st, cur, args, limit) == (if last then args + [cur] else args)
            && StringsAt(buf[out := NUL], if last then argv + [start] else argv,
                         if last then args + [cur] else args, len + 1)
  {
    var buf' := buf[out := NUL];
    assert buf'[len + 1..] == buf[i..][len + 1 - i..] == was[len + 1..];
    if |args| < limit {
      assert buf[i] == buf[i..][0] == was[i..][0] == was[i];
      assert i == len;
      assert was[i..len] == [];
    }
    if st != Space && |args| < limit {
      ArgumentEnds(buf, buf', argv, args, cur, start, out);
      StringsGrow(buf', buf', argv + [start], args + [cur], out + 1, len + 1);
    } else {
      StringsGrow(buf, buf', argv, args, if st == Space then out else start, len + 1);
    }
  }

  lemma {:induction false} StringsGrow(buf: Text, buf': Text, argv: seq<nat>, args: seq<Text>, end: nat, end': nat)
    requires StringsAt(buf, argv, args, end) && end <= end' <= |buf'| && buf[..end] == buf'[..end]
    ensures StringsAt(buf', argv, args, end')
  {
    forall k | 0 <= k < |argv| ensures StringAt(buf', argv[k], args[k]) {
      var p, q := argv[k], argv[k] + |args[k]|;
      assert buf'[p..q] == buf'[..end][p..q] == buf[..end][p..q] == buf[p..q];
      assert buf'[q] == buf'[..end][q];
    }
  }

  /** The terminator goes behind the argument that stands at `start`. */
  lemma {:induction false} ArgumentEnds(buf: Text, buf': Text, argv: seq<nat>, args: seq<Text>, cur: Text, start: nat,
                                        out: nat)
    requires StringsAt(buf, argv, args, start) && start <= out < |buf| == |buf'|
    requires buf[start..out] == cur && NUL !in cur && buf' == buf[out := NUL]
    ensures StringsAt(buf', argv + [start], args + [cur], out + 1)
  {
    StringsGrow(buf, buf', argv, args, start, out + 1);
    assert buf'[start..out] == cur;
  }

  // ---------- Round trip ----------

  /** An argument as the user may type it: in quotes, or (unless it is empty) bare. Quotes and
      backslashes are escaped in both forms, spaces in the bare form. */
  datatype Typed = Typed(arg: Text, quoted: bool)

  function Escaped(s: Text, quoted: bool): Text {
    if s == [] then []
    else (if s[0] == ESCAPE || s[0] == QUOTE || (s[0] == SPACE && !quoted) then [ESCAPE, s[0]] else [s[0]])
         + Escaped(s[1..], quoted)
  }

  function Form(t: Typed): Text {
    if t.quoted then [QUOTE] + Escaped(t.arg, true) + [QUOTE] else Escaped(t.arg, false)
  }

  function JoinSpaced(ts: seq<Typed>): Text {
    if ts == [] then []
    else if |ts| == 1 then Form(ts[0])
    else Form(ts[0]) + [SPACE] + JoinSpaced(ts[1..])
  }

  function Plain(ts: seq<Typed>): seq<Text> { seq(|ts|, i requires 0 <= i < |ts| => ts[i].arg) }

  /** Reading the escaped characters of an argument adds them, unescaped, to the argument begun. */
  lemma {:induction false} ReadEscaped(s: Text, rest: Text, quoted: bool, cur: Text, args: seq<Text>, limit: nat)
    requires |args| < limit
    ensures var st := if quoted then QuotedArg else Arg;
            SplitFrom(Escaped(s, quoted) + rest, st, cur, args, limit) == SplitFrom(rest, st, cur + s, args, limit)
  {
    hide SplitFrom;
    var st := if quoted then QuotedArg else Arg;
    if s == [] {
      assert Escaped(s, quoted) + rest == rest && cur + s == cur;
    } else {
      var c := s[0];
      var all, more := Escaped(s, quoted) + rest, Escaped(s[1..], quoted) + rest;
      ReadEscaped(s[1..], rest, quoted, cur + [c], args, limit);
      assert cur + s == (cur + [c]) + s[1..];
      if c == ESCAPE || c == QUOTE || (c == SPACE && !quoted) {
        assert all == [ESCAPE] + ([c] + more);
        ReadEscape(st, c, more, cur, args, limit);
      } else {
        assert all == [c] + more && all[1..] == more;
        OneStep(all, st, cur, args, limit);
      }
    }
  }

  /** Reading one typed argument, from the space before it up to its end. */
  lemma {:induction false} ReadForm(t: Typed, rest: Text, args: seq<Text>, limit: nat)
    requires |args| < limit && (t.quoted || t.arg != [])
    requires rest == [] || rest[0] == SPACE
    ensures SplitFrom(Form(t) + rest, Space, [], args, limit)
            == SplitFrom(if rest == [] then [] else rest[1..], Space, [], args + [t.arg], limit)
  {
    if t.quoted {
      var body := Escaped(t.arg, true) + ([QUOTE] + rest);
      assert Form(t) + rest == [QUOTE] + body;
      assert ([QUOTE] + body)[1..] == body && [] + Step(Space, QUOTE).out == [];
      ReadEscaped(t.arg, [QUOTE] + rest, true, [], args, limit);
      assert [] + t.arg == t.arg;
      assert ([QUOTE] + rest)[1..] == rest;
      assert SplitFrom([QUOTE] + rest, QuotedArg, t.arg, args, limit)
          == SplitFrom(rest, Space, [], args + [t.arg], limit);
      if rest != [] {
        SkipSpace(rest, args + [t.arg], limit);
      }
    } else {
      ReadBare(t.arg, rest, args, limit);
    }
  }

  lemma {:induction false} SkipSpace(rest: Text, args: seq<Text>, limit: nat)
    requires rest != [] && rest[0] == SPACE
    ensures SplitFrom(rest, Space, [], args, limit) == SplitFrom(rest[1..], Space, [], args, limit)
  {
    assert [] + Step(Space, rest[0]).out == [];
  }

  lemma {:induction false} ReadBare(s: Text, rest: Text, args: seq<Text>, limit: nat)
    requires |args| < limit && s != [] && (rest == [] || rest[0] == SPACE)
    ensures SplitFrom(Escaped(s, false) + rest, Space, [], args, limit)
            == SplitFrom(if rest == [] then [] else rest[1..], Space, [], args + [s], limit)
  {
    hide Escaped, SplitFrom;
    var c := s[0];
    var all, more := Escaped(s, false) + rest, Escaped(s[1..], false) + rest;
    ReadEscaped(s[1..], rest, false, [c], args, limit);
    assert [c] + s[1..] == s;
    EscapedFirst(s);
    if Escapable(c) {
      assert all == [ESCAPE] + ([c] + more);
      ReadEscape(Space, c, more, [], args, limit);
      assert [] + [c] == [c];
    } else {
      assert all[0] == c && all[1..] == more && [] + [c] == [c];
      OneStep(all, Space, [], args, limit);
    }
    ArgEnds(s, rest, args, limit);
  }

  lemma {:induction false} EscapedFirst(s: Text)
    requires s != []
    ensures Escaped(s, false) == (if Escapable(s[0]) then [ESCAPE, s[0]] else [s[0]]) + Escaped(s[1..], false)
  {
  }

  lemma {:induction false} OneStep(s: Text, st: State, cur: Text, args: seq<Text>, limit: nat)
    requires |args| < limit && s != [] && !Step(st, s[0]).ends
    ensures SplitFrom(s, st, cur, args, limit)
              == SplitFrom(s[1..], Step(st, s[0]).state, cur + Step(st, s[0]).out, args, limit)
  {
  }

  /** A bare argument ends with a space or with the text. */
  lemma {:induction false} ArgEnds(s: Text, rest: Text, args: seq<Text>, limit: nat)
    requires |args| < limit && (rest == [] || rest[0] == SPACE)
    ensures SplitFrom(rest, Arg, s, args, limit)
            == SplitFrom(if rest == [] then [] else rest[1..], Space, [], args + [s], limit)
  {
  }

  /** An escaped character, within an argument or at the beginning of a bare one. */
  lemma {:induction false} ReadEscape(st: State, c: char, more: Text, cur: Text, args: seq<Text>, limit: nat)
    requires |args| < limit && Escapable(c) && (st == Space || st == Arg || st == QuotedArg)
    ensures SplitFrom([ESCAPE] + ([c] + more), st, cur, args, limit)
            == SplitFrom(more, if st == Space then Arg else st, cur + [c], args, limit)
  {
    hide SplitFrom;
    var one, two := [ESCAPE] + ([c] + more), [c] + more;
    assert one[1..] == two && two[1..] == more && cur + [] == cur;
    OneStep(one, st, cur, args, limit);
    OneStep(two, Step(st, ESCAPE).state, cur, args, limit);
  }

  lemma {:induction false} NothingLeft(args: seq<Text>, limit: nat)
    ensures SplitFrom([], Space, [], args, limit) == args
  {
  }

  /** Splitting the joined forms gives the arguments back, whatever they contain. */
  lemma {:induction false} SplitJoined(ts: seq<Typed>, args: seq<Text>, limit: nat)
    requires |args| + |ts| <= limit
    requires forall i :: 0 <= i < |ts| ==> ts[i].quoted || ts[i].arg != []
    ensures SplitFrom(JoinSpaced(ts), Space, [], args, limit) == args + Plain(ts)
  {
    hide SplitFrom, Form;
    if ts == [] {
      NothingLeft(args, limit);
    } else if |ts| == 1 {
      NothingLeft(args + [ts[0].arg], limit);
      assert Form(ts[0]) + [] == Form(ts[0]);
      ReadForm(ts[0], [], args, limit);
      assert args + Plain(ts) == args + [ts[0].arg];
    } else {
      var rest := [SPACE] + JoinSpaced(ts[1..]);
      assert JoinSpaced(ts) == Form(ts[0]) + rest;
      ReadForm(ts[0], rest, args, limit);
      assert rest[1..] == JoinSpaced(ts[1..]);
      SplitJoined(ts[1..], args + [ts[0].arg], limit);
      assert args + Plain(ts) == (args + [ts[0].arg]) + Plain(ts[1..]);
    }
  }

  /** The round trip: any arguments, each quoted or bare, that fit into argv come back. */
  lemma {:induction false} RoundTrip(ts: seq<Typed>, argvSize: nat)
    requires |ts| + 1 <= argvSize
    requires forall i :: 0 <= i < |ts| ==> ts[i].quoted || ts[i].arg != []
    ensures Split(JoinSpaced(ts), argvSize - 1) == Plain(ts)
  {
    SplitJoined(ts, [], argvSize - 1);
    assert [] + Plain(ts) == Plain(ts);
  }

  // ---------- Lines no escaping would produce ----------

  /** Spaces before, between and behind arguments count for nothing. */
  lemma {:induction false} SpacesSkipped(rest: Text, args: seq<Text>, limit: nat)
    ensures SplitFrom([SPACE] + rest, Space, [], args, limit) == SplitFrom(rest, Space, [], args, limit)
    ensures SplitFrom([SPACE], Space, [], args, limit) == args
  {
    assert ([SPACE] + rest)[1..] == rest && [] + Step(Space, SPACE).out == [];
    if |args| < limit {
      assert [SPACE][1..] == [];
      NothingLeft(args, limit);
    }
  }

  /** Within an argument every other character stands for itself: in a bare one also a quote, in a quoted one
      also a space. At its beginning in a bare one, a character that is no space, quote or backslash. */
  lemma {:induction false} PlainCharacter(c: char, rest: Text, cur: Text, args: seq<Text>, limit: nat)
    requires |args| < limit && c != ESCAPE
    ensures c != SPACE ==> SplitFrom([c] + rest, Arg, cur, args, limit) == SplitFrom(rest, Arg, cur + [c], args, limit)
    ensures c != QUOTE ==>
              SplitFrom([c] + rest, QuotedArg, cur, args, limit) == SplitFrom(rest, QuotedArg, cur + [c], args, limit)
    ensures c != SPACE && c != QUOTE ==>
              SplitFrom([c] + rest, Space, [], args, limit) == SplitFrom(rest, Arg, [c], args, limit)
  {
    assert ([c] + rest)[1..] == rest && [] + [c] == [c];
  }

  /** A backslash before anything but a backslash, a quote or a space swallows that character. */
  lemma {:induction false} UnknownEscape(c: char, rest: Text, st: State, cur: Text, args: seq<Text>, limit: nat)
    requires |args| < limit && c !in {'\\', '\"', ' '} && (st == Arg || st == QuotedArg || st == Space)
    ensures SplitFrom([ESCAPE, c] + rest, st, cur, args, limit)
            == SplitFrom(rest, if st == Space then Arg else st, cur, args, limit)
  {
    hide SplitFrom;
    var one, two := [ESCAPE, c] + rest, [c] + rest;
    assert one[1..] == two && two[1..] == rest && cur + [] == cur;
    OneStep(one, st, cur, args, limit);
    OneStep(two, Step(st, ESCAPE).state, cur, args, limit);
  }

  /** A closing quote ends the argument, whatever follows; a space ends a bare one. */
  lemma {:induction false} ArgumentClosed(rest: Text, cur: Text, args: seq<Text>, limit: nat)
    requires |args| < limit
    ensures SplitFrom(['\"'] + rest, QuotedArg, cur, args, limit) == SplitFrom(rest, Space, [], args + [cur], limit)
    ensures SplitFrom([' '] + rest, Arg, cur, args, limit) == SplitFrom(rest, Space, [], args + [cur], limit)
    ensures SplitFrom(['\"'] + rest, Space, [], args, limit) == SplitFrom(rest, QuotedArg, [], args, limit)
  {
    assert (['\"'] + rest)[1..] == rest && ([' '] + rest)[1..] == rest && [] + Step(Space, QUOTE).out == [];
  }

  /** At the end of the line an argument that has been begun counts, also with its quote open or behind a
      backslash. */
  lemma {:induction false} EndOfLine(st: State, cur: Text, args: seq<Text>, limit: nat)
    requires |args| < limit
    ensures SplitFrom([], st, cur, args, limit) == if st == Space then args else args + [cur]
    ensures st == Arg || st == QuotedArg ==> SplitFrom(['\\'], st, cur, args, limit) == args + [cur]
  {
    assert ['\\'][1..] == [] && cur + [] == cur;
  }

  /** With fewer places in argv the first arguments are the same, and the others are left out. */
  lemma {:induction false} FewerPlaces(s: Text, st: State, cur: Text, args: seq<Text>, small: nat, large: nat)
    requires |args| <= small <= large
    ensures var all := SplitFrom(s, st, cur, args, large);
            && args <= all
            && SplitFrom(s, st, cur, args, small) == if |all| <= small then all else all[..small]
    decreases |s|
  {
    if |args| == small {
      OnlyAdds(s, st, cur, args, large);
    } else if s != [] {
      var e := Step(st, s[0]);
      if e.ends {
        FewerPlaces(s[1..], Space, [], args + [cur], small, large);
      } else {
        FewerPlaces(s[1..], e.state, cur + e.out, args, small, large);
      }
    }
  }

  lemma {:induction false} OnlyAdds(s: Text, st: State, cur: Text, args: seq<Text>, limit: nat)
    requires |args| <= limit
    ensures args <= SplitFrom(s, st, cur, args, limit)
    decreases |s|
  {
    if |args| < limit && s != [] {
      var e := Step(st, s[0]);
      if e.ends {
        OnlyAdds(s[1..], Space, [], args + [cur], limit);
      } else {
        OnlyAdds(s[1..], e.state, cur + e.out, args, limit);
      }
    }
  }

  // ---------- The round trip in the buffer ----------

  lemma {:induction false} EscapedIsClean(s: Text, quoted: bool)
    requires NUL !in s
    ensures NUL !in Escaped(s, quoted)
  {
    if s != [] { EscapedIsClean(s[1..], quoted); }
  }

  lemma {:induction false} JoinedIsClean(ts: seq<Typed>)
    requires forall i :: 0 <= i < |ts| ==> NUL !in ts[i].arg
    ensures NUL !in JoinSpaced(ts)
  {
    if ts != [] {
      EscapedIsClean(ts[0].arg, ts[0].quoted);
      if |ts| > 1 { JoinedIsClean(ts[1..]); }
    }
  }

  /** The round trip in the buffer itself: a line that holds the joined forms of any NUL-free arguments is
      split into exactly those arguments. */
  method SplitTyped(line: array<char>, argv: array<Pointer>, ghost ts: seq<Typed>) returns (argc: nat)
    requires |ts| + 1 <= argv.Length
    requires forall i :: 0 <= i < |ts| ==> (ts[i].quoted || ts[i].arg != []) && NUL !in ts[i].arg
    requires var len := |JoinSpaced(ts)|; len < line.Length && line[..len] == JoinSpaced(ts) && line[len] == NUL
    modifies line, argv
    ensures argc == |ts| && argv[argc] == Null && forall k :: 0 <= k < argc ==> argv[k].At?
    ensures StringsAt(line[..], Offsets(argv[..argc]), Plain(ts), |JoinSpaced(ts)| + 1)
  {
    JoinedIsClean(ts);
    RoundTrip(ts, argv.Length);
    argc := SplitInPlace(line, |JoinSpaced(ts)|, argv);
  }
}
