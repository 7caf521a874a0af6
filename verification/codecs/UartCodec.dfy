/** Newline translation of the UART file system driver, with its one-character pushback. */
module UartCodec {

  type Text = seq<char>

  const CR: char := '\r'
  const LF: char := '\n'

  /** esp_line_endings_t: how a newline looks on the wire. */
  datatype Mode = ModeCRLF | ModeCR | ModeLF

  datatype Option<T> = None | Some(value: T)

  // ---------- Sending ----------

  function EncodeChar(m: Mode, c: char): Text {
    if c == LF && m == ModeCRLF then [CR, LF]
    else if c == LF && m == ModeCR then [CR]
    else [c]
  }

  function Encode(m: Mode, s: Text): Text {
    if s == [] then [] else EncodeChar(m, s[0]) + Encode(m, s[1..])
  }

  lemma {:induction false} EncodeSnoc(m: Mode, s: Text, c: char)
    ensures Encode(m, s + [c]) == Encode(m, s) + EncodeChar(m, c)
  {
    if s == [] {
      assert s + [c] == [c] && [c][1..] == [];
    } else {
      assert (s + [c])[0] == s[0] && (s + [c])[1..] == s[1..] + [c];
      EncodeSnoc(m, s[1..], c);
    }
  }

  /** uart_write: what goes out on the wire. */
  method Write(m: Mode, data: Text) returns (wire: Text)
    ensures wire == Encode(m, data)
  {
    wire := [];
    for i := 0 to |data|
      invariant wire == Encode(m, data[..i])
    {
      assert data[..i + 1] == data[..i] + [data[i]];
      EncodeSnoc(m, data[..i], data[i]);
      var c := data[i];
      if c == LF && m != ModeLF {
        wire := wire + [CR];
        if m == ModeCR {
          continue;
        }
      }
      wire := wire + [c];
    }
    assert data[..|data|] == data;
  }

  // ---------- Receiving ----------

  /** What a reader gets for the characters `s` on the wire. With CR LF line ends, a CR at the very end
      is held back: it may be the beginning of a line end. */
  function Decode(m: Mode, s: Text): Text {
    if s == [] then []
    else if s[0] != CR || m == ModeLF then [s[0]] + Decode(m, s[1..])
    else if m == ModeCR then [LF] + Decode(m, s[1..])
    else if |s| == 1 then []
    else if s[1] == LF then [LF] + Decode(m, s[2..])
    else [CR] + Decode(m, s[1..])
  }

  lemma {:induction false} DecodeFirst(m: Mode, c: char, rest: Text)
    ensures Decode(m, [c] + rest)
            == if c != CR || m == ModeLF then [c] + Decode(m, rest)
               else if m == ModeCR then [LF] + Decode(m, rest)
               else if rest == [] then []
               else if rest[0] == LF then [LF] + Decode(m, rest[1..])
               else [CR] + Decode(m, rest)
  {
    assert ([c] + rest)[1..] == rest;
    if rest != [] { assert ([c] + rest)[2..] == rest[1..]; }
  }

  /** The characters among the answers of the receive function; None stands for "no character yet". */
  function Chars(script: seq<Option<char>>): Text {
    if script == [] then []
    else if script[0].None? then Chars(script[1..])
    else [script[0].value] + Chars(script[1..])
  }

  /** Between two moments the receive function has given the answers that make up the difference between
      `before` and `after`. All of them were characters, except that, unless `enough`, the last answer
      was "no character yet" (and so is every answer once the script has run out). */
  ghost predicate Answered(before: seq<Option<char>>, after: seq<Option<char>>, enough: bool) {
    && |after| <= |before| && after == before[|before| - |after|..]
    && var n := |before| - |after|;
    && (forall i :: 0 <= i < n - 1 ==> before[i].Some?)
    && (enough && n > 0 ==> before[n - 1].Some?)
    && (!enough ==> after == [] || (n > 0 && before[n - 1].None?))
  }

  /** Nothing is pushed back but a CR of which it is not known yet what it means. */
  predicate Idle(mode: Mode, peek: Option<char>) {
    peek == None || (mode == ModeCRLF && peek == Some(CR))
  }

  predicate EndsLine(data: Text) { data != [] && data[|data| - 1] == LF }

  lemma {:induction false} NothingAsked(a: seq<Option<char>>)
    ensures Answered(a, a, true)
  {
  }

  lemma {:induction false} AnsweredThen(a: seq<Option<char>>, b: seq<Option<char>>, c: seq<Option<char>>, enough: bool)
    requires Answered(a, b, true) && Answered(b, c, enough)
    ensures Answered(a, c, enough)
  {
    assert forall i :: 0 <= i < |a| - |b| ==> a[i].Some?;
    assert forall i :: |a| - |b| <= i < |a| ==> a[i] == b[i - (|a| - |b|)];
    assert c == a[|a| - |c|..];
  }

  function Ahead(peek: Option<char>, script: seq<Option<char>>): Text {
    if peek.Some? then [peek.value] + Chars(script) else Chars(script)
  }

  /** The receiving side of one UART: the pushback slot (s_peek_char), and what the receive function is
      going to answer to the calls still to come. */
  class Receiver {
    const mode: Mode
    var peek: Option<char>
    var script: seq<Option<char>>

    constructor (mode: Mode, script: seq<Option<char>>)
      ensures this.mode == mode && this.script == script && peek == None
    {
      this.mode, this.script, peek := mode, script, None;
    }

    /** Characters that have not been delivered, the pushed-back one first. */
    function Pending(): Text
      reads this
    {
      Ahead(peek, script)
    }

    /** The receive function itself. */
    method Receive() returns (c: Option<char>)
      modifies this`script
      ensures Chars(old(script)) == if c.Some? then [c.value] + Chars(script) else Chars(script)
      ensures Answered(old(script), script, c.Some?)
    {
      if script == [] {
        return None;
      }
      c := script[0];
      script := script[1..];
    }

    /** uart_read_char. */
    method ReadChar() returns (c: Option<char>)
      modifies this`peek, this`script
      ensures peek == None
      ensures old(Pending()) == if c.Some? then [c.value] + Pending() else Pending()
      ensures old(peek.Some?) ==> c.Some?
      ensures Answered(old(script), script, c.Some?)
    {
      if peek.Some? {
        c := peek;
        peek := None;
      } else {
        c := Receive();
      }
    }

    /** uart_return_char; its assertion is the precondition. */
    method ReturnChar(c: char)
      requires peek == None
      modifies this`peek
      ensures peek == Some(c) && Pending() == [c] + old(Pending())
    {
      peek := Some(c);
    }

    /** uart_read: at most `size` characters, not beyond a newline, and no waiting; it stops early only
        when the receive function has no character yet, and then nothing but a CR that may begin a line end
        is left pushed back. Whatever has been delivered and whatever is still pending make up the decoded
        input. */
    method Read(size: nat) returns (data: Text)
      modifies this
      ensures |data| <= size
      ensures forall i :: 0 <= i < |data| - 1 ==> data[i] != LF
      ensures Answered(old(script), script, |data| == size || EndsLine(data))
      ensures |data| == size || EndsLine(data) || Idle(mode, peek)
      ensures data + Decode(mode, Pending()) == Decode(mode, old(Pending()))
    {
      hide Decode, Pending, Answered;
      data := [];
      NothingAsked(script);
      while |data| < size
        invariant |data| <= size
        invariant forall i :: 0 <= i < |data| ==> data[i] != LF
        invariant Answered(old(script), script, true)
        invariant data + Decode(mode, Pending()) == Decode(mode, old(Pending()))
        decreases size - |data|
      {
        ghost var left, answers := Decode(mode, Pending()), script;
        var got, c := Next();
        AnsweredThen(old(script), answers, script, got);
        if !got {
          assert left == Decode(mode, Pending());
          return;
        }
        assert data + left == (data + [c]) + Decode(mode, Pending());
        data := data + [c];
        if c == LF {
          return;
        }
      }
    }

    /** One turn of the loop of uart_read: the next decoded character, if there is one yet. */
    method Next() returns (got: bool, c: char)
      modifies this
      ensures Decode(mode, old(Pending())) == (if got then [c] else []) + Decode(mode, Pending())
      ensures Answered(old(script), script, got)
      ensures !got ==> Idle(mode, peek)
    {
      hide Decode, Answered;
      got, c := true, LF;
      var first := ReadChar();
      if first.None? {
        return false, LF;
      }
      c := first.value;
      DecodeFirst(mode, c, Pending());
      if c == CR {
        if mode == ModeCR {
          c := LF;
        } else if mode == ModeCRLF {
          ghost var after, answers := Pending(), script;
          var second := ReadChar();
          AnsweredThen(old(script), answers, script, second.Some?);
          assert second.Some? ==> after[0] == second.value && after[1..] == Pending();
          if second.None? {
            ReturnChar(c);
            return false, LF;
          }
          if second.value == LF {
            c := LF;
          } else {
            ReturnChar(second.value);
          }
        }
      }
    }
  }

  function Flatten(parts: seq<Text>): Text {
    if parts == [] then [] else parts[0] + Flatten(parts[1..])
  }

  lemma {:induction false} FlattenNone()
    ensures Flatten([]) == []
  {
  }

  lemma {:induction false} FlattenSnoc(parts: seq<Text>, p: Text)
    ensures Flatten(parts + [p]) == Flatten(parts) + p
  {
    if parts == [] {
      assert parts + [p] == [p] && [p][1..] == [];
    } else {
      assert (parts + [p])[0] == parts[0] && (parts + [p])[1..] == parts[1..] + [p];
      FlattenSnoc(parts[1..], p);
    }
  }

  /** Reads that ask for at least one character. */
  function Attempts(sizes: seq<nat>): nat {
    if sizes == [] then 0
    else Attempts(sizes[..|sizes| - 1]) + if sizes[|sizes| - 1] > 0 then 1 else 0
  }

  /** Answers still to come, and characters still to be delivered. */
  function Work(m: Mode, peek: Option<char>, script: seq<Option<char>>): nat {
    |script| + |Decode(m, Ahead(peek, script))|
  }

  lemma {:induction false} NoWork(m: Mode, peek: Option<char>, script: seq<Option<char>>)
    ensures Work(m, peek, script) == 0 <==> script == [] && Idle(m, peek)
    ensures Work(m, peek, script) == 0 ==> Decode(m, Ahead(peek, script)) == []
  {
    if peek.Some? { DecodeFirst(m, peek.value, []); }
    assert script == [] && peek.Some? ==> Ahead(peek, script) == [peek.value] + [];
  }

  /** Every read that asks for something gets something done, as long as there is something to do. */
  lemma {:induction false} ReadProgress(m: Mode, size: nat, data: Text, peek: Option<char>, script: seq<Option<char>>,
                                        peek': Option<char>, script': seq<Option<char>>)
    requires |data| <= size
    requires Answered(script, script', |data| == size || EndsLine(data))
    requires |data| == size || EndsLine(data) || Idle(m, peek')
    requires data + Decode(m, Ahead(peek', script')) == Decode(m, Ahead(peek, script))
    ensures Work(m, peek', script') <= Work(m, peek, script)
    ensures size > 0 ==> Work(m, peek', script') < Work(m, peek, script) || Work(m, peek', script') == 0
  {
    hide Decode;
    NoWork(m, peek', script');
    assert |data| + |Decode(m, Ahead(peek', script'))| == |Decode(m, Ahead(peek, script))|;
  }

  /** Any sequence of reads, of any sizes, against any pattern of arrivals. As many reads as there are
      answers and characters to come are enough to have everything delivered. */
  method ReadAll(port: Receiver, sizes: seq<nat>) returns (parts: seq<Text>)
    requires port.peek == None
    modifies port
    ensures |parts| == |sizes| && forall i :: 0 <= i < |sizes| ==> |parts[i]| <= sizes[i]
    ensures Flatten(parts) + Decode(port.mode, port.Pending()) == Decode(port.mode, Chars(old(port.script)))
    ensures Attempts(sizes) >= |old(port.script)| + |Decode(port.mode, Chars(old(port.script)))| ==>
              && port.script == [] && Idle(port.mode, port.peek)
              && Flatten(parts) == Decode(port.mode, Chars(old(port.script)))
  {
    hide Decode, Flatten, Attempts, Answered, Work;
    ghost var script := port.script;
    parts := [];
    FlattenNone();
    AttemptsTo(sizes, 0);
    ghost var all := Work(port.mode, port.peek, port.script);
    for n := 0 to |sizes|
      invariant |parts| == n && forall i :: 0 <= i < n ==> |parts[i]| <= sizes[i]
      invariant Flatten(parts) + Decode(port.mode, port.Pending()) == Decode(port.mode, Chars(script))
      invariant var left := Work(port.mode, port.peek, port.script); left == 0 || Attempts(sizes[..n]) + left <= all
    {
      ghost var left, peek, answers := Decode(port.mode, port.Pending()), port.peek, port.script;
      var data := port.Read(sizes[n]);
      FlattenSnoc(parts, data);
      assert Flatten(parts) + left == Flatten(parts + [data]) + Decode(port.mode, port.Pending());
      ReadProgress(port.mode, sizes[n], data, peek, answers, port.peek, port.script);
      AttemptsTo(sizes, n + 1);
      parts := parts + [data];
    }
    assert sizes[..|sizes|] == sizes;
    NoWork(port.mode, port.peek, port.script);
    WorkAtStart(port.mode, script);
  }

  lemma {:induction false} WorkAtStart(m: Mode, script: seq<Option<char>>)
    ensures Work(m, None, script) == |script| + |Decode(m, Chars(script))|
  {
  }

  lemma {:induction false} AttemptsTo(sizes: seq<nat>, n: nat)
    requires n <= |sizes|
    ensures Attempts(sizes[..n]) == if n == 0 then 0 else Attempts(sizes[..n - 1]) + if sizes[n - 1] > 0 then 1 else 0
  {
    if n > 0 { assert sizes[..n][..n - 1] == sizes[..n - 1]; }
  }

  // ---------- On the wire ----------

  lemma {:induction false} EncodeConcat(m: Mode, a: Text, b: Text)
    ensures Encode(m, a + b) == Encode(m, a) + Encode(m, b)
  {
    if a == [] {
      assert a + b == b;
    } else {
      assert (a + b)[0] == a[0] && (a + b)[1..] == a[1..] + b;
      EncodeConcat(m, a[1..], b);
    }
  }

  lemma {:induction false} EncodeLine(m: Mode, a: Text)
    requires LF !in a
    ensures Encode(m, a) == a
  {
    if a != [] {
      EncodeLine(m, a[1..]);
      assert a == [a[0]] + a[1..];
    }
  }

  /** A line goes out as it is, followed by the line end of the mode: CR LF, CR, or LF. */
  lemma {:induction false} EncodeLines(m: Mode, line: Text, rest: Text)
    requires LF !in line
    ensures Encode(m, line) == line
    ensures Encode(m, line + [LF] + rest) == line + LineEnd(m) + Encode(m, rest)
  {
    hide Encode, LineEnd;
    EncodeLine(m, line);
    EncodeConcat(m, line + [LF], rest);
    EncodeConcat(m, line, [LF]);
    EncodeNewline(m);
  }

  function LineEnd(m: Mode): Text {
    match m
    case ModeCRLF => ['\r', '\n']
    case ModeCR => ['\r']
    case ModeLF => ['\n']
  }

  lemma {:induction false} EncodeNewline(m: Mode)
    ensures Encode(m, [LF]) == LineEnd(m)
  {
    assert [LF][1..] == [];
  }

  /** Coming in with CR LF line ends: characters without CR come through as they are, also LF; CR LF becomes a
      newline, a CR before any other character comes through, and a CR at the very end is held. */
  lemma {:induction false} DecodeLines(a: Text, rest: Text)
    requires CR !in a
    ensures Decode(ModeCRLF, a) == a && Decode(ModeCRLF, a + [CR]) == a
    ensures Decode(ModeCRLF, a + ([CR, LF] + rest)) == a + ([LF] + Decode(ModeCRLF, rest))
    ensures rest != [] && rest[0] != LF ==>
              Decode(ModeCRLF, a + ([CR] + rest)) == a + ([CR] + Decode(ModeCRLF, rest))
  {
    hide Decode;
    DecodePlain(a, []);
    DecodePlain(a, [CR]);
    DecodePlain(a, [CR, LF] + rest);
    DecodePlain(a, [CR] + rest);
    DecodeFirst(ModeCRLF, CR, []);
    DecodeFirst(ModeCRLF, CR, [LF] + rest);
    DecodeFirst(ModeCRLF, CR, rest);
    assert [CR] + [] == [CR] && [CR] + ([LF] + rest) == [CR, LF] + rest && ([LF] + rest)[1..] == rest;
    assert a + [] == a;
    DecodeNothing(ModeCRLF);
  }

  lemma {:induction false} DecodeNothing(m: Mode)
    ensures Decode(m, []) == []
  {
  }

  lemma {:induction false} DecodePlain(a: Text, rest: Text)
    requires CR !in a
    ensures Decode(ModeCRLF, a + rest) == a + Decode(ModeCRLF, rest)
  {
    hide Decode;
    if a == [] {
      assert a + rest == rest;
    } else {
      assert a + rest == [a[0]] + (a[1..] + rest);
      DecodeFirst(ModeCRLF, a[0], a[1..] + rest);
      DecodePlain(a[1..], rest);
    }
  }

  /** Coming in with CR line ends every CR is a newline, and nothing else changes; with LF nothing does. */
  lemma {:induction false} DecodeEach(s: Text)
    ensures Decode(ModeLF, s) == s
    ensures Decode(ModeCR, s) == seq(|s|, i requires 0 <= i < |s| => if s[i] == CR then LF else s[i])
  {
    if s != [] {
      DecodeEach(s[1..]);
      assert s == [s[0]] + s[1..];
      DecodeFirst(ModeCR, s[0], s[1..]);
      DecodeFirst(ModeLF, s[0], s[1..]);
    }
  }

  // ---------- Round trip ----------

  /** With CR LF line ends every text comes back, up to one CR at its very end, which is held. */
  lemma {:induction false} RoundTripCRLF(s: Text)
    ensures Decode(ModeCRLF, Encode(ModeCRLF, s))
            == if s != [] && s[|s| - 1] == CR then s[..|s| - 1] else s
  {
    if s != [] {
      var rest := Encode(ModeCRLF, s[1..]);
      RoundTripCRLF(s[1..]);
      assert s == [s[0]] + s[1..];
      if s[0] == LF {
        assert Encode(ModeCRLF, s) == [CR, LF] + rest;
        assert ([CR, LF] + rest)[2..] == rest;
      } else {
        assert Encode(ModeCRLF, s) == [s[0]] + rest;
        assert ([s[0]] + rest)[1..] == rest;
        if |s| > 1 { NeverStartsWithLF(s[1..]); }
      }
      if |s| > 1 {
        assert s[1..][|s| - 2] == s[|s| - 1];
        assert s[..|s| - 1] == [s[0]] + s[1..][..|s| - 2];
      }
    }
  }

  lemma {:induction false} NeverStartsWithLF(s: Text)
    requires s != []
    ensures Encode(ModeCRLF, s) != [] && Encode(ModeCRLF, s)[0] != LF
  {
  }

  /** With CR line ends a text comes back exactly when it contains no CR of its own. */
  lemma {:induction false} RoundTripCR(s: Text)
    ensures |Decode(ModeCR, Encode(ModeCR, s))| == |s|
    ensures Decode(ModeCR, Encode(ModeCR, s)) == s <==> CR !in s
  {
    if s != [] {
      var rest := Encode(ModeCR, s[1..]);
      RoundTripCR(s[1..]);
      assert s == [s[0]] + s[1..];
      var c := if s[0] == LF then CR else s[0];
      assert Encode(ModeCR, s) == [c] + rest;
      assert ([c] + rest)[1..] == rest;
      var back := Decode(ModeCR, Encode(ModeCR, s));
      assert back == [if c == CR then LF else c] + Decode(ModeCR, rest);
      assert back[1..] == Decode(ModeCR, rest);
      assert back == s <==> back[0] == s[0] && back[1..] == s[1..];
    }
  }

  /** With LF line ends nothing is translated. */
  lemma {:induction false} RoundTripLF(s: Text)
    ensures Decode(ModeLF, Encode(ModeLF, s)) == s
  {
    if s != [] {
      RoundTripLF(s[1..]);
      assert Encode(ModeLF, s) == [s[0]] + Encode(ModeLF, s[1..]);
      assert s == [s[0]] + s[1..];
    }
  }

  /** What comes through of a text: all of it, except that with CR LF line ends a CR at its very end is
      held, and that with CR line ends a CR comes out as a newline. */
  function Through(m: Mode, text: Text): Text {
    match m
    case ModeCRLF => if text != [] && text[|text| - 1] == CR then text[..|text| - 1] else text
    case ModeCR => seq(|text|, i requires 0 <= i < |text| => if text[i] == CR then LF else text[i])
    case ModeLF => text
  }

  lemma {:induction false} RoundTrip(m: Mode, text: Text)
    ensures Decode(m, Encode(m, text)) == Through(m, text)
  {
    hide Decode, Encode;
    match m
    case ModeCRLF => RoundTripCRLF(text);
    case ModeCR => RoundTripThroughCR(text);
    case ModeLF => RoundTripLF(text);
  }

  lemma {:induction false} RoundTripThroughCR(s: Text)
    ensures Decode(ModeCR, Encode(ModeCR, s)) == Through(ModeCR, s)
  {
    if s != [] {
      var rest := Encode(ModeCR, s[1..]);
      RoundTripThroughCR(s[1..]);
      assert Through(ModeCR, s) == [if s[0] == CR then LF else s[0]] + Through(ModeCR, s[1..]);
      DecodeFirst(ModeCR, if s[0] == LF then CR else s[0], rest);
    }
  }

  /** What one end writes is what the other end reads, however the characters trickle in and however
      the reads are cut: what has been read is at every time a prefix of what comes through of the text,
      and it is all of that once there have been as many reads as answers and characters. */
  method Transmit(m: Mode, text: Text, script: seq<Option<char>>, sizes: seq<nat>) returns (parts: seq<Text>)
    requires Chars(script) == Encode(m, text)
    ensures |parts| == |sizes| && forall i :: 0 <= i < |sizes| ==> |parts[i]| <= sizes[i]
    ensures Flatten(parts) <= Through(m, text)
    ensures Attempts(sizes) >= |script| + |text| ==> Flatten(parts) == Through(m, text)
  {
    hide Decode, Encode, Flatten, Attempts;
    RoundTrip(m, text);
    assert |Through(m, text)| <= |text|;
    var port := new Receiver(m, script);
    parts := ReadAll(port, sizes);
  }
}
