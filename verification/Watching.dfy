/**
 The incremental parser for a stream of server-sent events.  Bytes arrive in pieces of any
 size; what comes out is compared with a reading of the whole stream at once.
 */
module Watching {
  import opened Wrappers

  // ---------------------------------------------------------------------------
  // Percent decoding

  /** The three characters that the server encodes. */
  function EncodeChar(c: char): string {
    if c == '%' then "%25" else if c == '\n' then "%0A" else if c == '\r' then "%0D" else [c]
  }

  function Encode(s: string): string {
    if s == [] then [] else EncodeChar(s[0]) + Encode(s[1..])
  }

  /** What an escape of up to three characters stands for; unknown ones stand for themselves. */
  function Unescape(escape: string): string {
    if escape == "%25" then "%" else if escape == "%0A" then "\n" else if escape == "%0D" then "\r" else escape
  }

  function Decode(s: string): string
    decreases |s|
  {
    if s == [] then []
    else if s[0] != '%' then [s[0]] + Decode(s[1..])
    else if |s| < 3 then Unescape(s)
    else Unescape(s[..3]) + Decode(s[3..])
  }

  /** Decoding undoes the encoding of every string. */
  lemma {:induction false} DecodeEncode(s: string)
    ensures Decode(Encode(s)) == s
  {
    if s != [] {
      var head, tail := EncodeChar(s[0]), Encode(s[1..]);
      DecodeEncode(s[1..]);
      if |head| == 3 {
        assert (head + tail)[..3] == head && (head + tail)[3..] == tail;
      } else {
        assert (head + tail)[1..] == tail;
      }
    }
  }

  /** An escape that the server does not send stays as it is, and so does one that is cut off. */
  lemma {:induction false} UnknownEscapeStays(a: char, b: char, rest: string)
    requires (a != '2' || b != '5') && (a != '0' || (b != 'A' && b != 'D'))
    ensures Decode(['%', a, b] + rest) == ['%', a, b] + Decode(rest)
    ensures Decode(['%', a]) == ['%', a] && Decode("%") == "%"
  {
    var escape := ['%', a, b];
    assert (escape + rest)[..3] == escape && (escape + rest)[3..] == rest;
    assert escape[1] != "%25"[1] || escape[2] != "%25"[2];
    assert escape[1] != "%0A"[1] || (escape[2] != "%0A"[2] && escape[2] != "%0D"[2]);
  }

  /** Position of the first `c` at or after `from`, or the length if there is none. */
  function IndexOf(s: string, c: char, from: nat): (k: nat)
    requires from <= |s|
    ensures from <= k <= |s|
    ensures k < |s| ==> s[k] == c
    ensures forall x :: from <= x < k ==> s[x] != c
    decreases |s| - from
  {
    if from == |s| then from else if s[from] == c then from else IndexOf(s, c, from + 1)
  }

  lemma Regroup(a: string, b: string, c: string, d: string)
    ensures a + (b + c) == a + b + c && a + (b + (c + d)) == a + b + c + d
  {
  }

  lemma {:induction false} DecodePlain(s: string, k: nat)
    requires k <= |s| && forall x :: 0 <= x < k ==> s[x] != '%'
    ensures Decode(s) == s[..k] + Decode(s[k..])
    decreases k
  {
    if k > 0 {
      DecodePlain(s[1..], k - 1);
      assert s[1..][k - 1..] == s[k..] && s[..k] == [s[0]] + s[1..][..k - 1];
      Regroup([s[0]], s[1..][..k - 1], Decode(s[k..]), []);
    }
  }

  function EscapeAt(data: string, percent: nat): (escape: string)
    requires percent <= |data|
    ensures percent + |escape| <= |data| && (percent < |data| ==> escape != [])
  {
    if percent + 3 <= |data| then data[percent..percent + 3] else data[percent..]
  }

  /** From `start` on: a plain run up to `percent`, and the escape there if there is one. */
  lemma DecodeStep(data: string, start: nat, percent: nat)
    requires start <= percent <= |data| && (forall x :: start <= x < percent ==> data[x] != '%')
    requires percent < |data| ==> data[percent] == '%'
    ensures Decode(data[start..]) == data[start..percent] +
              if percent == |data| then []
              else Unescape(EscapeAt(data, percent)) + Decode(data[percent + |EscapeAt(data, percent)|..])
  {
    DecodeEscape(data, percent);
    hide Decode, Unescape, EscapeAt;
    var s := data[start..];
    DecodePlain(s, percent - start);
    assert s[..percent - start] == data[start..percent] && s[percent - start..] == data[percent..];
  }

  lemma DecodeEscape(data: string, percent: nat)
    requires percent <= |data| && (percent < |data| ==> data[percent] == '%')
    ensures Decode(data[percent..]) ==
              if percent == |data| then []
              else Unescape(EscapeAt(data, percent)) + Decode(data[percent + |EscapeAt(data, percent)|..])
  {
    hide Unescape;
    var t := data[percent..];
    if |t| >= 3 {
      assert t[..3] == EscapeAt(data, percent) && t[3..] == data[percent + 3..];
    } else if t != [] {
      assert data[percent + |t|..] == [];
    }
  }

  /** One round of the loop, after which the plain run and the escape are decoded. */
  lemma DecodeRound(data: string, buffer: string, start: nat, percent: nat)
    requires start <= percent <= |data| && (forall x :: start <= x < percent ==> data[x] != '%')
    requires percent < |data| ==> data[percent] == '%'
    requires Decode(data) == buffer + Decode(data[start..])
    ensures var run, escape := data[start..percent], EscapeAt(data, percent);
            Decode(data) == if percent == |data| then buffer + run
                            else buffer + run + Unescape(escape) + Decode(data[percent + |escape|..])
  {
    hide Decode, Unescape, EscapeAt;
    DecodeStep(data, start, percent);
    if percent < |data| {
      var escape := EscapeAt(data, percent);
      Regroup(buffer, data[start..percent], Unescape(escape), Decode(data[percent + |escape|..]));
    }
  }

  /** Copies runs without a percent sign whole and replaces the escapes in between. */
  method DecodeData(data: string) returns (decoded: string)
    ensures decoded == Decode(data)
  {
    hide Decode, EscapeAt, IndexOf;
    assert data[0..] == data;
    var firstPercent := IndexOf(data, '%', 0);
    var buffer, start := "", 0;
    assert Decode(data) == buffer + Decode(data[start..]);
    if firstPercent == |data| {
      DecodeRound(data, buffer, 0, |data|);
      return data;
    }
    while true
      invariant start <= |data| && Decode(data) == buffer + Decode(data[start..])
      decreases |data| - start
    {
      var percent := if start == 0 then firstPercent else IndexOf(data, '%', start);
      DecodeRound(data, buffer, start, percent);
      if percent == |data| {
        buffer := buffer + data[start..];
        break;
      }
      ghost var done := buffer + data[start..percent];
      buffer := buffer + data[start..percent];
      var encoded := EscapeAt(data, percent);
      if encoded == "%25" {
        buffer := buffer + ['%'];
      } else if encoded == "%0A" {
        buffer := buffer + ['\n'];
      } else if encoded == "%0D" {
        buffer := buffer + ['\r'];
      } else {
        buffer := buffer + encoded;
      }
      assert buffer == done + Unescape(encoded);
      start := percent + |encoded|;
    }
    decoded := buffer;
  }

  // ---------------------------------------------------------------------------
  // What a stream means

  datatype Error<E> = Malformed(text: string) | Server(error: E)

  /** The parts that are not modelled: reading a document, and reading the body of an error event. */
  datatype Reader<D, E> = Reader(document: string -> Option<D>, serverError: string -> E)

  /** What an event comes to. */
  datatype Outcome<D, E> = Nothing | Event(event: D) | Fail(error: Error<E>)

  /** The event that is being put together from lines. */
  datatype Partial = Partial(eventType: string, data: string)

  const START := Partial("", "")

  function Dispatch<D, E>(reader: Reader<D, E>, eventType: string, data: string): Outcome<D, E> {
    var text := Decode(data);
    if eventType == "" || eventType == "message" then
      match reader.document(text)
      case Some(d) => Event(d)
      case None => Fail(Malformed(text))
    else if eventType == "error" then Fail(Server(reader.serverError(text)))
    else Nothing
  }

  function WithoutLast(s: string, c: char): string {
    if s != [] && s[|s| - 1] == c then s[..|s| - 1] else s
  }

  function Trimmed(line: string): string {
    WithoutLast(WithoutLast(line, '\n'), '\r')
  }

  /** A field line: its value goes to the event type or is appended to the data. */
  function FieldLine(partial: Partial, line: string): Partial {
    var colon := IndexOf(line, ':', 0);
    var field := line[..colon];
    var rest := if colon == |line| then "" else line[colon + 1..];
    var value := if rest != [] && rest[0] == ' ' then rest[1..] else rest;
    if field == "event" then partial.(eventType := value)
    else if field == "data" then partial.(data := partial.data + value + "\n")
    else partial
  }

  function AfterLine(partial: Partial, line: string): Partial {
    var text := Trimmed(line);
    if text == [] then START
    else if text[0] == ':' then partial
    else FieldLine(partial, text)
  }

  function OutcomeOfLine<D, E>(reader: Reader<D, E>, partial: Partial, line: string): Outcome<D, E> {
    if Trimmed(line) != [] || partial.data == [] then Nothing
    else Dispatch(reader, partial.eventType, WithoutLast(partial.data, '\n'))
  }

  /** The events of a stream and how it ends: with an error, or waiting for more. */
  datatype Reading<D, E> = Reading(events: seq<D>, end: End<E>)
  datatype End<E> = Ended(error: Error<E>) | Waiting(partial: Partial, rest: string)

  /** The whole stream at once: line by line, up to the first error. */
  function Read<D, E>(reader: Reader<D, E>, partial: Partial, bytes: string): Reading<D, E>
    decreases |bytes|
  {
    var k := IndexOf(bytes, '\n', 0);
    if k == |bytes| then Reading([], Waiting(partial, bytes)) else
      match OutcomeOfLine(reader, partial, bytes[..k])
      case Fail(error) => Reading([], Ended(error))
      case Nothing => Read(reader, AfterLine(partial, bytes[..k]), bytes[k + 1..])
      case Event(event) => After([event], Read(reader, AfterLine(partial, bytes[..k]), bytes[k + 1..]))
  }

  function After<D, E>(events: seq<D>, r: Reading<D, E>): Reading<D, E> {
    r.(events := events + r.events)
  }

  /** A reading continued with more bytes; nothing follows an error. */
  function Continue<D, E>(reader: Reader<D, E>, r: Reading<D, E>, more: string): Reading<D, E> {
    match r.end
    case Ended(_) => r
    case Waiting(partial, rest) => After(r.events, Read(reader, partial, rest + more))
  }

  lemma AfterAfter<D, E>(e: seq<D>, f: seq<D>, r: Reading<D, E>)
    ensures After(e, After(f, r)) == After(e + f, r)
  {
    assert e + (f + r.events) == e + f + r.events;
  }

  /** The stream that a line and more bytes make. */
  lemma ReadLine<D, E>(reader: Reader<D, E>, partial: Partial, bytes: string, k: nat)
    requires k < |bytes| && bytes[k] == '\n' && forall x :: 0 <= x < k ==> bytes[x] != '\n'
    ensures Read(reader, partial, bytes) ==
      match OutcomeOfLine(reader, partial, bytes[..k])
      case Fail(error) => Reading([], Ended(error))
      case Nothing => Read(reader, AfterLine(partial, bytes[..k]), bytes[k + 1..])
      case Event(event) => After([event], Read(reader, AfterLine(partial, bytes[..k]), bytes[k + 1..]))
  {
    assert IndexOf(bytes, '\n', 0) == k;
  }

  lemma ReadPartialLine<D, E>(reader: Reader<D, E>, partial: Partial, bytes: string)
    requires '\n' !in bytes
    ensures Read(reader, partial, bytes) == Reading([], Waiting(partial, bytes))
  {
    assert IndexOf(bytes, '\n', 0) == |bytes|;
  }

  lemma AfterNothing<D, E>(r: Reading<D, E>)
    ensures After([], r) == r
  {
    assert [] + r.events == r.events;
  }

  /** Reading a stream in two parts is reading it at once. */
  lemma {:induction false} ReadAppend<D, E>(reader: Reader<D, E>, partial: Partial, a: string, b: string)
    ensures Read(reader, partial, a + b) == Continue(reader, Read(reader, partial, a), b)
    decreases |a|
  {
    hide OutcomeOfLine, AfterLine, Read, IndexOf, After;
    var k := IndexOf(a, '\n', 0);
    if k == |a| {
      ReadPartialLine(reader, partial, a);
      AfterNothing(Read(reader, partial, a + b));
    } else {
      assert forall x :: 0 <= x < k ==> (a + b)[x] != '\n';
      assert (a + b)[..k] == a[..k] && (a + b)[k + 1..] == a[k + 1..] + b;
      ReadLine(reader, partial, a, k);
      ReadLine(reader, partial, a + b, k);
      var outcome, next := OutcomeOfLine(reader, partial, a[..k]), AfterLine(partial, a[..k]);
      ReadAppend(reader, next, a[k + 1..], b);
      if outcome.Event? {
        ContinueAfter(reader, [outcome.event], Read(reader, next, a[k + 1..]), b);
      }
    }
  }

  lemma ContinueAfter<D, E>(reader: Reader<D, E>, events: seq<D>, r: Reading<D, E>, more: string)
    ensures Continue(reader, After(events, r), more) == After(events, Continue(reader, r, more))
  {
    if r.end.Waiting? {
      AfterAfter(events, r.events, Read(reader, r.end.partial, r.end.rest + more));
    }
  }

  // ---------------------------------------------------------------------------
  // How events are written

  /** A field line is written `name`, `name:value` or `name: value`. */
  datatype Form = Bare | Tight | Spaced

  datatype Line =
    | EventLine(value: string, form: Form)
    | DataLine(value: string, form: Form)
    | Comment(text: string)
    | Ignored(text: string) // any other field

  datatype Written = Written(line: Line, crlf: bool)

  /** The lines of an event, and how the empty line after them ends. */
  datatype Sent = Sent(lines: seq<Written>, crlf: bool)

  function FieldText(name: string, value: string, form: Form): string {
    match form
    case Bare => name
    case Tight => name + ":" + value
    case Spaced => name + ": " + value
  }

  function LineText(line: Line): string {
    match line
    case EventLine(value, form) => FieldText("event", value, form)
    case DataLine(value, form) => FieldText("data", value, form)
    case Comment(text) => ":" + text
    case Ignored(text) => text
  }

  predicate FieldProper(value: string, form: Form) {
    && (form == Bare ==> value == "")
    && (form == Tight ==> value == "" || value[0] != ' ')
  }

  /** The text of a line is on one line, and reads as what it is meant to be. */
  predicate Proper(line: Line) {
    var text := LineText(line);
    && '\n' !in text && (text != "" ==> text[|text| - 1] != '\r')
    && match line
       case EventLine(value, form) => FieldProper(value, form)
       case DataLine(value, form) => FieldProper(value, form)
       case Comment(_) => true
       case Ignored(_) =>
         && text != "" && text[0] != ':'
         && text != "event" && !("event:" <= text) && text != "data" && !("data:" <= text)
  }

  ghost predicate AllProper(stream: seq<Sent>) {
    forall s <- stream, w <- s.lines :: Proper(w.line)
  }

  function Ending(crlf: bool): string {
    if crlf then "\r\n" else "\n"
  }

  function LinesText(lines: seq<Written>): string {
    if lines == [] then "" else
      var w := lines[|lines| - 1];
      LinesText(lines[..|lines| - 1]) + (LineText(w.line) + Ending(w.crlf))
  }

  function StreamText(stream: seq<Sent>): string {
    if stream == [] then "" else LinesText(stream[0].lines) + (Ending(stream[0].crlf) + StreamText(stream[1..]))
  }

  // ---------------------------------------------------------------------------
  // What they mean

  /** The value of the last event line. */
  function TypeOf(lines: seq<Written>): string {
    if lines == [] then "" else
      var w := lines[|lines| - 1];
      if w.line.EventLine? then w.line.value else TypeOf(lines[..|lines| - 1])
  }

  /** The values of the data lines, in order. */
  function DataOf(lines: seq<Written>): seq<string> {
    if lines == [] then [] else
      var w := lines[|lines| - 1];
      DataOf(lines[..|lines| - 1]) + if w.line.DataLine? then [w.line.value] else []
  }

  function Joined(values: seq<string>): string {
    if values == [] then ""
    else if |values| == 1 then values[0]
    else Joined(values[..|values| - 1]) + "\n" + values[|values| - 1]
  }

  /** What one event comes to: nothing without data, and otherwise what its type makes of its text. */
  function OutcomeOf<D, E>(reader: Reader<D, E>, lines: seq<Written>): Outcome<D, E> {
    if DataOf(lines) == [] then Nothing else
      var eventType, text := TypeOf(lines), Decode(Joined(DataOf(lines)));
      if eventType == "" || eventType == "message" then
        if reader.document(text).Some? then Event(reader.document(text).value) else Fail(Malformed(text))
      else if eventType == "error" then Fail(Server(reader.serverError(text)))
      else Nothing
  }

  /** What a whole stream comes to: one outcome after another, up to the first error. */
  function Received<D, E>(reader: Reader<D, E>, stream: seq<Sent>): Reading<D, E> {
    if stream == [] then Reading([], Waiting(Partial("", ""), "")) else
      var rest := Received(reader, stream[1..]);
      match OutcomeOf(reader, stream[0].lines)
      case Nothing => rest
      case Event(event) => Reading([event] + rest.events, rest.end)
      case Fail(error) => Reading([], Ended(error))
  }

  /** What a line adds to the event that is being put together. */
  function Gathered(partial: Partial, line: Line): Partial {
    match line
    case EventLine(value, _) => Partial(value, partial.data)
    case DataLine(value, _) => Partial(partial.eventType, partial.data + value + "\n")
    case _ => partial
  }

  /** A line as it is fed to the parser, without the line feed. */
  function Fed(w: Written): string {
    LineText(w.line) + if w.crlf then "\r" else ""
  }

  lemma TrimmedIs(text: string, crlf: bool)
    requires '\n' !in text && (text != "" ==> text[|text| - 1] != '\r')
    ensures Trimmed(text + if crlf then "\r" else "") == text
  {
    if crlf {
      assert (text + "\r")[..|text|] == text;
    } else {
      assert text + "" == text;
    }
  }

  lemma FieldIs(partial: Partial, name: string, value: string, form: Form)
    requires ':' !in name && name != "" && FieldProper(value, form)
    ensures FieldLine(partial, FieldText(name, value, form)) ==
              if name == "event" then Partial(value, partial.data)
              else if name == "data" then Partial(partial.eventType, partial.data + value + "\n")
              else partial
  {
    hide IndexOf;
    var text, n := FieldText(name, value, form), |name|;
    assert text[..n] == name;
    assert forall x :: 0 <= x < n ==> text[x] == name[x] != ':';
    assert form != Bare ==> text[n] == ':';
    assert IndexOf(text, ':', 0) == n;
    if form != Bare {
      assert text[n + 1..] == if form == Tight then value else " " + value;
      assert (" " + value)[1..] == value;
    }
  }

  lemma IgnoredIs(partial: Partial, text: string)
    requires Proper(Ignored(text))
    ensures FieldLine(partial, text) == partial
  {
    hide IndexOf;
    assert "event" + ":" == "event:" && "data" + ":" == "data:";
    NotThatField(text, "event");
    NotThatField(text, "data");
  }

  lemma NotThatField(text: string, name: string)
    requires text != name && !(name + ":" <= text)
    ensures text[..IndexOf(text, ':', 0)] != name
  {
    hide IndexOf;
    var n := IndexOf(text, ':', 0);
    assert text == text[..n] + text[n..];
    if n < |text| {
      assert text == text[..n] + ":" + text[n + 1..];
    }
  }

  /** A line adds what it says to the event, whatever its form and its ending. */
  lemma LineGathers<D, E>(reader: Reader<D, E>, partial: Partial, w: Written)
    requires Proper(w.line)
    ensures AfterLine(partial, Fed(w)) == Gathered(partial, w.line)
    ensures OutcomeOfLine(reader, partial, Fed(w)) == Nothing
  {
    hide Trimmed, FieldLine;
    TrimmedIs(LineText(w.line), w.crlf);
    match w.line
    case EventLine(value, form) => FieldIs(partial, "event", value, form);
    case DataLine(value, form) => FieldIs(partial, "data", value, form);
    case Comment(_) =>
    case Ignored(text) => IgnoredIs(partial, text);
  }

  /** A line that is not empty adds what it says, and an empty one starts anew. */
  lemma LineIs<D, E>(reader: Reader<D, E>, partial: Partial, line: string)
    ensures forall w: Written :: Proper(w.line) && line == Fed(w) ==>
              AfterLine(partial, line) == Gathered(partial, w.line) && OutcomeOfLine(reader, partial, line) == Nothing
    ensures line == "" || line == "\r" ==>
              && AfterLine(partial, line) == START
              && (partial.data == "" ==> OutcomeOfLine(reader, partial, line) == Nothing)
  {
    hide Proper, Fed, Gathered, FieldLine, Dispatch;
    forall w: Written | Proper(w.line) && line == Fed(w) {
      LineGathers(reader, partial, w);
    }
    TrimmedIs("", line != "");
  }

  lemma ReadFed<D, E>(reader: Reader<D, E>, partial: Partial, line: string, more: string)
    requires '\n' !in line
    ensures Read(reader, partial, line + "\n" + more) ==
      match OutcomeOfLine(reader, partial, line)
      case Fail(error) => Reading([], Ended(error))
      case Nothing => Read(reader, AfterLine(partial, line), more)
      case Event(event) => After([event], Read(reader, AfterLine(partial, line), more))
  {
    hide Read, AfterLine, OutcomeOfLine, After;
    var bytes := line + "\n" + more;
    assert bytes[..|line|] == line && bytes[|line| + 1..] == more;
    assert forall x :: 0 <= x < |line| ==> bytes[x] == line[x] && line[x] != '\n';
    ReadLine(reader, partial, bytes, |line|);
  }

  lemma ReadGathers<D, E>(reader: Reader<D, E>, partial: Partial, w: Written, more: string)
    requires Proper(w.line)
    ensures Read(reader, partial, LineText(w.line) + Ending(w.crlf) + more) ==
              Read(reader, Gathered(partial, w.line), more)
  {
    hide Read, AfterLine, OutcomeOfLine, LineText, Gathered, After;
    LineGathers(reader, partial, w);
    assert LineText(w.line) + Ending(w.crlf) == Fed(w) + "\n";
    ReadFed(reader, partial, Fed(w), more);
  }

  /** The values, each with a line feed after it. */
  function Terminated(values: seq<string>): string {
    if values == [] then "" else Terminated(values[..|values| - 1]) + values[|values| - 1] + "\n"
  }

  lemma {:induction false} TerminatedIs(values: seq<string>)
    requires values != []
    ensures Terminated(values) == Joined(values) + "\n"
  {
    if |values| > 1 {
      TerminatedIs(values[..|values| - 1]);
    }
  }

  lemma NoLines(more: string)
    ensures LinesText([]) + more == more && TypeOf([]) == "" && Terminated(DataOf([])) == ""
  {
  }

  /** The lines of an event put together its type and its data. */
  lemma {:induction false} ReadLines<D, E>(reader: Reader<D, E>, lines: seq<Written>, more: string)
    requires forall w <- lines :: Proper(w.line)
    ensures Read(reader, START, LinesText(lines) + more) ==
              Read(reader, Partial(TypeOf(lines), Terminated(DataOf(lines))), more)
  {
    hide Read, Proper, LineText, Ending, LinesText, Gathered, TypeOf, DataOf, Terminated;
    if lines == [] {
      NoLines(more);
    } else {
      var init, w := lines[..|lines| - 1], lines[|lines| - 1];
      var text := LineText(w.line) + Ending(w.crlf);
      ReadLines(reader, init, text + more);
      LastLine(lines, more);
      ReadGathers(reader, Partial(TypeOf(init), Terminated(DataOf(init))), w, more);
      LastGathers(lines);
    }
  }

  lemma LastLine(lines: seq<Written>, more: string)
    requires lines != []
    ensures var w := lines[|lines| - 1];
            LinesText(lines) + more == LinesText(lines[..|lines| - 1]) + (LineText(w.line) + Ending(w.crlf) + more)
  {
    hide LineText, Ending;
    var init, w := lines[..|lines| - 1], lines[|lines| - 1];
    Regroup(LinesText(init), LineText(w.line) + Ending(w.crlf), more, "");
  }

  lemma LastGathers(lines: seq<Written>)
    requires lines != []
    ensures var init, w := lines[..|lines| - 1], lines[|lines| - 1];
            Gathered(Partial(TypeOf(init), Terminated(DataOf(init))), w.line)
              == Partial(TypeOf(lines), Terminated(DataOf(lines)))
  {
    var init, w := lines[..|lines| - 1], lines[|lines| - 1];
    if w.line.DataLine? {
      assert DataOf(lines)[..|DataOf(lines)| - 1] == DataOf(init);
    } else {
      assert DataOf(lines) == DataOf(init);
    }
  }

  /** The empty line after them dispatches the event. */
  lemma ReadEmptyLine<D, E>(reader: Reader<D, E>, lines: seq<Written>, crlf: bool, more: string)
    ensures var p := Partial(TypeOf(lines), Terminated(DataOf(lines)));
            Read(reader, p, Ending(crlf) + more) ==
              match OutcomeOf(reader, lines)
              case Nothing => Read(reader, START, more)
              case Event(event) => After([event], Read(reader, START, more))
              case Fail(error) => Reading([], Ended(error))
  {
    hide Read, AfterLine, OutcomeOfLine, OutcomeOf, TypeOf, DataOf, Terminated, Trimmed, After;
    var p, line := Partial(TypeOf(lines), Terminated(DataOf(lines))), "" + if crlf then "\r" else "";
    TrimmedIs("", crlf);
    EmptyLineIs(reader, lines, line);
    assert Ending(crlf) == line + "\n";
    ReadFed(reader, p, line, more);
  }

  lemma EmptyLineIs<D, E>(reader: Reader<D, E>, lines: seq<Written>, line: string)
    requires Trimmed(line) == ""
    ensures var p := Partial(TypeOf(lines), Terminated(DataOf(lines)));
            AfterLine(p, line) == START && OutcomeOfLine(reader, p, line) == OutcomeOf(reader, lines)
  {
    hide Trimmed, TypeOf, DataOf, Decode;
    var values := DataOf(lines);
    if values != [] {
      TerminatedIs(values);
      hide Terminated, Joined;
      assert (Joined(values) + "\n")[..|Joined(values)|] == Joined(values);
    }
  }

  /** Every stream of events, with any lines, values, forms and line endings, is read as what it means. */
  lemma {:induction false} SentIsReceived<D, E>(reader: Reader<D, E>, stream: seq<Sent>)
    requires AllProper(stream)
    ensures Read(reader, START, StreamText(stream)) == Received(reader, stream)
  {
    if stream == [] {
      ReadPartialLine(reader, START, "");
    } else {
      hide Read, OutcomeOf, LinesText;
      assert stream[0] in stream && forall s <- stream[1..] :: s in stream;
      var more := Ending(stream[0].crlf) + StreamText(stream[1..]);
      ReadLines(reader, stream[0].lines, more);
      ReadEmptyLine(reader, stream[0].lines, stream[0].crlf, StreamText(stream[1..]));
      SentIsReceived(reader, stream[1..]);
    }
  }

  // ---------------------------------------------------------------------------
  // The parser

  datatype State = NeedData | HaveEvent | HaveError

  class WatchStream<D, E> {
    const reader: Reader<D, E>
    var state: State
    var error: Option<Error<E>>
    var nextEvent: Option<D>
    var buffer: string
    var bufferOffset: nat
    var eventType: string
    var dataBuffer: string

    ghost predicate Valid()
      reads this
    {
      && bufferOffset <= |buffer|
      && (state == HaveEvent ==> nextEvent.Some?)
      && (state == HaveError ==> error.Some?)
    }

    function Assembling(): Partial
      reads this
    {
      Partial(eventType, dataBuffer)
    }

    /** Everything still to come out of what has been fed. */
    ghost function Future(): Reading<D, E>
      requires Valid()
      reads this
    {
      match state
      case NeedData => Read(reader, Assembling(), buffer[bufferOffset..])
      case HaveEvent => After([nextEvent.value], Read(reader, Assembling(), buffer[bufferOffset..]))
      case HaveError => Reading([], Ended(error.value))
    }

    /** Nothing more to be had without more bytes, unless an event or an error is ready. */
    ghost predicate Settled()
      requires Valid()
      reads this
    {
      state == NeedData ==> Future() == Reading([], Waiting(Assembling(), buffer[bufferOffset..]))
    }

    constructor (reader: Reader<D, E>)
      ensures Valid() && this.reader == reader && state == NeedData && Future() == Reading([], Waiting(START, ""))
      ensures Settled()
    {
      this.reader := reader;
      state, error, nextEvent := NeedData, None, None;
      buffer, bufferOffset, eventType, dataBuffer := "", 0, "", "";
      new;
      ReadPartialLine(reader, START, "");
    }

    /** An event that has been put together. */
    method FeedSse(data: string, eventType: string)
      requires state == NeedData
      modifies `state, `nextEvent, `error
      ensures match Dispatch(reader, eventType, data)
              case Nothing => state == NeedData
              case Event(d) => state == HaveEvent && nextEvent == Some(d)
              case Fail(e) => state == HaveError && error == Some(e)
    {
      var text := DecodeData(data);
      if eventType == "" || eventType == "message" {
        var parsed := reader.document(text);
        if parsed.Some? {
          nextEvent, state := parsed, HaveEvent;
          return;
        }
        state, error := HaveError, Some(Malformed(text));
      } else if eventType == "error" {
        state, error := HaveError, Some(Server(reader.serverError(text)));
      }
    }

    /** One line, with or without its line ending. */
    method FeedLine(line: string)
      requires state == NeedData
      modifies `state, `nextEvent, `error, `eventType, `dataBuffer
      ensures forall w: Written :: Proper(w.line) && line == Fed(w) ==>
                Assembling() == Gathered(old(Assembling()), w.line) && state == NeedData
      ensures line == "" || line == "\r" ==>
                eventType == "" && dataBuffer == "" && (old(dataBuffer) == "" ==> state == NeedData)
      ensures Assembling() == AfterLine(old(Assembling()), line)
      ensures match OutcomeOfLine(reader, old(Assembling()), line)
              case Nothing => state == NeedData
              case Event(d) => state == HaveEvent && nextEvent == Some(d)
              case Fail(e) => state == HaveError && error == Some(e)
    {
      hide Proper, Fed, Gathered, Decode;
      LineIs(reader, Assembling(), line);
      var text := Trimmed(line);
      if text == [] {
        if dataBuffer == [] {
          eventType := "";
          return;
        }
        if dataBuffer[|dataBuffer| - 1] == '\n' {
          dataBuffer := dataBuffer[..|dataBuffer| - 1];
        }
        FeedSse(dataBuffer, eventType);
        dataBuffer, eventType := "", "";
        return;
      }
      if text[0] == ':' {
        return;
      }
      var colon := IndexOf(text, ':', 0);
      var field := text[..colon];
      var value := if colon == |text| then "" else text[colon + 1..];
      if value != [] && value[0] == ' ' {
        value := value[1..];
      }
      if field == "event" {
        eventType := value;
      } else if field == "data" {
        dataBuffer := dataBuffer + value;
        dataBuffer := dataBuffer + "\n";
      }
    }

    /** Feed complete lines until there is an event, an error or no complete line. */
    method AdvanceBufferState()
      requires Valid() && state == NeedData
      modifies this
      ensures Valid() && Future() == old(Future())
      ensures Settled()
    {
      hide OutcomeOfLine, AfterLine, Read, IndexOf, After;
      while state == NeedData
        invariant Valid() && Future() == old(Future())
        decreases if state == NeedData then 1 + |buffer| - bufferOffset else 0
      {
        if bufferOffset == |buffer| {
          ReadPartialLine(reader, Assembling(), "");
          assert buffer[bufferOffset..] == "";
          buffer, bufferOffset := "", 0;
          assert buffer[bufferOffset..] == "";
          return;
        }
        var nextNewline := IndexOf(buffer, '\n', bufferOffset);
        if nextNewline == |buffer| {
          ReadPartialLine(reader, Assembling(), buffer[bufferOffset..]);
          if bufferOffset != 0 {
            buffer, bufferOffset := buffer[bufferOffset..], 0;
          }
          return;
        }
        ghost var bytes := buffer[bufferOffset..];
        ReadLine(reader, Assembling(), bytes, nextNewline - bufferOffset);
        assert bytes[..nextNewline - bufferOffset] == buffer[bufferOffset..nextNewline];
        assert bytes[nextNewline - bufferOffset + 1..] == buffer[nextNewline + 1..];
        FeedLine(buffer[bufferOffset..nextNewline]);
        bufferOffset := nextNewline + 1;
      }
    }

    /** More bytes. */
    method FeedBuffer(input: string)
      requires Valid() && state == NeedData
      modifies this
      ensures Valid() && Future() == Continue(reader, old(Future()), input)
      ensures Settled()
    {
      ghost var was := buffer[bufferOffset..];
      ReadAppend(reader, Assembling(), was, input);
      buffer := buffer + input;
      assert buffer[bufferOffset..] == was + input;
      AdvanceBufferState();
    }

    /** Take the event that is ready and look for the next one. */
    method NextEvent() returns (out: D)
      requires Valid() && state == HaveEvent
      modifies this
      ensures Valid() && old(Future()) == After([out], Future())
      ensures Settled()
    {
      out := nextEvent.value;
      state := NeedData;
      AdvanceBufferState();
    }
  }

  // ---------------------------------------------------------------------------
  // Whole streams

  function Concat(chunks: seq<string>): string {
    if chunks == [] then "" else Concat(chunks[..|chunks| - 1]) + chunks[|chunks| - 1]
  }

  /** Take every event that is ready. */
  method Drain<D, E>(stream: WatchStream<D, E>) returns (events: seq<D>)
    requires stream.Valid() && stream.Settled()
    modifies stream
    ensures stream.Valid() && stream.Settled() && stream.state != HaveEvent
    ensures old(stream.Future()) == After(events, stream.Future())
  {
    hide Read;
    events := [];
    AfterNothing(stream.Future());
    while stream.state == HaveEvent
      invariant stream.Valid() && stream.Settled() && old(stream.Future()) == After(events, stream.Future())
      decreases |stream.Future().events|
    {
      var event := stream.NextEvent();
      AfterAfter(events, [event], stream.Future());
      events := events + [event];
    }
  }

  /** The documented way to use the parser, taking all events after every piece of input: the
      events and the error are those of the whole stream, however it was cut into pieces. */
  method Watch<D, E>(reader: Reader<D, E>, chunks: seq<string>) returns (events: seq<D>, error: Option<Error<E>>)
    ensures events == Read(reader, START, Concat(chunks)).events
    ensures match Read(reader, START, Concat(chunks)).end
            case Ended(e) => error == Some(e)
            case Waiting(_, _) => error == None
    ensures forall stream: seq<Sent> :: AllProper(stream) && Concat(chunks) == StreamText(stream) ==>
              && events == Received(reader, stream).events
              && error == match Received(reader, stream).end case Ended(e) => Some(e) case Waiting(_, _) => None
  {
    hide Read, Received, StreamText, AllProper;
    forall stream: seq<Sent> | AllProper(stream) && Concat(chunks) == StreamText(stream) {
      SentIsReceived(reader, stream);
    }
    var stream := new WatchStream(reader);
    events, error := [], None;
    ReadPartialLine(reader, START, "");
    for k := 0 to |chunks|
      invariant fresh(stream) && stream.Valid() && stream.Settled()
      invariant stream.reader == reader && stream.state == NeedData
      invariant After(events, stream.Future()) == Read(reader, START, Concat(chunks[..k]))
    {
      assert chunks[..k + 1][..k] == chunks[..k];
      ReadAppend(reader, START, Concat(chunks[..k]), chunks[k]);
      ContinueAfter(reader, events, stream.Future(), chunks[k]);
      stream.FeedBuffer(chunks[k]);
      var more := Drain(stream);
      AfterAfter(events, more, stream.Future());
      events := events + more;
      if stream.state == HaveError {
        error := stream.error;
        EndedAbsorbs(reader, chunks, k + 1);
        return;
      }
    }
    assert chunks[..|chunks|] == chunks;
  }

  lemma {:induction false} EndedAbsorbs<D, E>(reader: Reader<D, E>, chunks: seq<string>, k: nat)
    requires k <= |chunks| && Read(reader, START, Concat(chunks[..k])).end.Ended?
    ensures Read(reader, START, Concat(chunks)) == Read(reader, START, Concat(chunks[..k]))
    decreases |chunks| - k
  {
    if k == |chunks| {
      assert chunks[..k] == chunks;
    } else {
      assert chunks[..k + 1][..k] == chunks[..k];
      ReadAppend(reader, START, Concat(chunks[..k]), chunks[k]);
      EndedAbsorbs(reader, chunks, k + 1);
    }
  }

  /** How the server sends a document. */
  function EventText(text: string): string {
    "data: " + Encode(text) + "\n\n"
  }

  function EventTexts(texts: seq<string>): string {
    if texts == [] then "" else EventText(texts[0]) + EventTexts(texts[1..])
  }

  lemma {:induction false} EncodeHidesLines(s: string)
    ensures '\n' !in Encode(s) && '\r' !in Encode(s)
  {
    if s != [] {
      EncodeHidesLines(s[1..]);
      assert '\n' !in EncodeChar(s[0]) && '\r' !in EncodeChar(s[0]);
    }
  }

  lemma DataLine(encoded: string)
    requires '\n' !in encoded && '\r' !in encoded
    ensures AfterLine(START, "data: " + encoded) == Partial("", encoded + "\n")
    ensures Trimmed("data: " + encoded) != []
  {
    var line := "data: " + encoded;
    assert line[|line| - 1] != '\n' && line[|line| - 1] != '\r';
    assert Trimmed(line) == line;
    assert line[0] == 'd' && line[1] == 'a' && line[2] == 't' && line[3] == 'a' && line[4] == ':';
    assert IndexOf(line, ':', 0) == 4;
    assert line[..4] == "data" && line[5..][1..] == encoded && line[5] == ' ';
  }

  /** The empty line dispatches what the data line has put together. */
  lemma EmptyLine<D, E>(reader: Reader<D, E>, text: string)
    requires reader.document(text).Some?
    ensures OutcomeOfLine(reader, Partial("", Encode(text) + "\n"), "") == Event(reader.document(text).value)
    ensures AfterLine(Partial("", Encode(text) + "\n"), "") == START
  {
    assert WithoutLast(Encode(text) + "\n", '\n') == Encode(text);
    DecodeEncode(text);
  }

  /** One document comes through: the data line, then the empty line that dispatches it. */
  lemma ReadEvent<D, E>(reader: Reader<D, E>, text: string, more: string)
    requires reader.document(text).Some?
    ensures Read(reader, START, EventText(text) + more) ==
              After([reader.document(text).value], Read(reader, START, more))
  {
    hide Read, AfterLine, Dispatch, Encode, Trimmed, After;
    var encoded := Encode(text);
    var line := "data: " + encoded;
    var bytes, rest := EventText(text) + more, "\n" + more;
    EncodeHidesLines(text);
    DataLine(encoded);
    assert bytes == line + "\n" + rest;
    assert bytes[..|line|] == line && bytes[|line| + 1..] == rest;
    assert forall x :: 0 <= x < |line| ==> bytes[x] == line[x] && line[x] != '\n';
    ReadLine(reader, START, bytes, |line|);
    assert rest[..0] == "" && rest[1..] == more;
    ReadLine(reader, Partial("", encoded + "\n"), rest, 0);
    EmptyLine(reader, text);
  }

  /** A stream of documents comes out as those documents, for every choice of texts. */
  lemma {:induction false} ReadEvents<D, E>(reader: Reader<D, E>, texts: seq<string>)
    requires forall t <- texts :: reader.document(t).Some?
    ensures var r := Read(reader, START, EventTexts(texts));
            && r.end == Waiting(START, "") && |r.events| == |texts|
            && forall k :: 0 <= k < |texts| ==> Some(r.events[k]) == reader.document(texts[k])
  {
    if texts == [] {
      ReadPartialLine(reader, START, "");
    } else {
      ReadEvents(reader, texts[1..]);
      ReadEvent(reader, texts[0], EventTexts(texts[1..]));
    }
  }
}
