/**
  The client side of the Smart-I XFER command: the line reader over a socket, the response parsers,
  and the transfer itself.
 */
module SmartiClient {
  import opened Words
  import opened Wrappers
  import Base64
  import Decimal

  // ---------------------------------------------------------------- the socket

  /** What one select/read round on the socket brings.  SelectFailed is select returning -1. */
  datatype Event = Char(c: char) | Interrupted | TimedOut | Closed | Failed | SelectFailed

  /** One call of the line reader.  `text` is None when it returns without writing the buffer. */
  datatype Line = Line(error: bool, text: Option<string>, timeout: bool, rest: seq<Event>)

  /** smartic_socket_readln with room for `len` characters, `got` already read.  A socket with no
      further events times out. */
  function ReadLine(events: seq<Event>, len: nat, got: string): Line
    requires len > 0
    decreases |events|
  {
    if events == [] then Line(false, Finish(got), true, [])
    else match events[0]
      case TimedOut => Line(false, Finish(got), true, events[1..])
      case SelectFailed => Line(false, Finish(got), false, events[1..])
      case Interrupted => ReadLine(events[1..], len, got)
      case Failed => Line(true, None, false, events[1..])
      case Closed => Line(false, Finish(got), false, events[1..])
      case Char(c) =>
        if c == '\n' then Line(false, Some(got), false, events[1..])
        else ReadLine(events[1..], len, if |got| < len - 1 then got + [c] else got)
  }

  /** A read that stops before the first character returns 0 and leaves the buffer unwritten. */
  function Finish(got: string): Option<string> {
    if got == "" then None else Some(got)
  }

  lemma {:induction false} ReadLineFits(events: seq<Event>, len: nat, got: string)
    requires len > 0 && |got| < len
    ensures ReadLine(events, len, got).text.Some? ==> |ReadLine(events, len, got).text.value| < len
    decreases |events|
  {
    if events != [] {
      match events[0]
      case Interrupted => ReadLineFits(events[1..], len, got);
      case Char(c) =>
        if c != '\n' { ReadLineFits(events[1..], len, if |got| < len - 1 then got + [c] else got); }
      case _ =>
    }
  }

  // ---------------------------------------------------------------- the parsers

  /** The C string in a buffer: everything before the first NUL. */
  function CString(s: string): string {
    if s == "" || s[0] == '\0' then "" else [s[0]] + CString(s[1..])
  }

  datatype Response = Response(code: nat, message: string)

  /** smartic_parse_response. */
  function ParseResponse(line: string): Option<Response> {
    if |line| < 4 || !Decimal.IsDigit(line[0]) || !Decimal.IsDigit(line[1]) || !Decimal.IsDigit(line[2])
       || !Decimal.IsSpace(line[3])
    then None
    else Some(Response(Decimal.DigitOf(line[0]) * 100 + Decimal.DigitOf(line[1]) * 10 + Decimal.DigitOf(line[2]),
                       line[4..]))
  }

  /** smartic_parse_devinfo: the regular expression "(.*): (.*)" with a greedy first group, so the
      information is what follows the last ": ". */
  function ParseDevInfo(msg: string): Option<string> {
    if |msg| < 2 then None
    else
      var later := ParseDevInfo(msg[1..]);
      if later.Some? then later
      else if msg[0] == ':' && msg[1] == ' ' then Some(msg[2..]) else None
  }

  /** isb64 */
  predicate IsB64(c: char) {
    'A' <= c <= 'Z' || 'a' <= c <= 'z' || '0' <= c <= '9' || c == '+' || c == '/' || c == '='
  }

  /** The trimming loop; None when it runs past the start of the buffer. */
  function Trim(s: string): Option<string> {
    if s == "" then None else if IsB64(s[|s| - 1]) then Some(s) else Trim(s[..|s| - 1])
  }

  lemma {:induction false} TrimShortens(s: string)
    ensures Trim(s).Some? ==> 0 < |Trim(s).value| <= |s|
  {
    if s != "" && !IsB64(s[|s| - 1]) { TrimShortens(s[..|s| - 1]); }
  }

  // ---------------------------------------------------------------- the transfer

  /** Outcomes of smarti_client_xfer after the command was written.  Received carries None when the
      decoder returned NULL, which the source reports as success.  Unspecified marks the two cases
      where the source goes on with memory it never wrote: an unwritten line, or a text without any
      Base 64 character. */
  datatype Outcome =
    | Received(data: Option<seq<Byte>>)
    | ReadError
    | TimedOutWaiting
    | InvalidResponse
    | Status(code: nat, message: string)
    | NoLength
    | LengthMismatch
    | Unspecified

  datatype Transfer = Transfer(outcome: Outcome, rest: seq<Event>)

  const LINE_SIZE: nat := 1024

  function ReceiveText(events: seq<Event>, length: Word): Transfer {
    var room := U32(length * 2);
    if room == 0 then Transfer(ReadError, events)
    else
      var line := ReadLine(events, room, "");
      if line.error then Transfer(ReadError, line.rest)
      else if line.timeout then Transfer(TimedOutWaiting, line.rest)
      else
        var text := if line.text.None? then None else Trim(line.text.value);
        if text.None? then Transfer(Unspecified, line.rest)
        else if |text.value| != length then Transfer(LengthMismatch, line.rest)
        else Transfer(Received(DecodeText(text.value)), line.rest)
  }

  function DecodeText(text: string): Option<seq<Byte>> {
    if text == "" || Base64.Decoded(text).None? then None else Some(Base64.Decoded(text).value)
  }

  function ReceiveReply(events: seq<Event>): Transfer {
    var line := ReadLine(events, LINE_SIZE, "");
    if line.error then Transfer(ReadError, line.rest)
    else if line.timeout then Transfer(TimedOutWaiting, line.rest)
    else if line.text.None? then Transfer(Unspecified, line.rest)
    else
      match ParseResponse(CString(line.text.value))
      case None => Transfer(InvalidResponse, line.rest)
      case Some(response) =>
        if response.code != 301 then Transfer(Status(response.code, response.message), line.rest)
        else match ParseDevInfo(response.message)
          case None => Transfer(NoLength, line.rest)
          case Some(info) => ReceiveText(line.rest, U32(Decimal.StrToUl(info)))
  }

  // ---------------------------------------------------------------- unwritten memory

  /** The connection ends, without an error or a timeout, before the first character. */
  predicate EndsEarly(events: seq<Event>)
    decreases |events|
  {
    events != [] &&
    (events[0].Closed? || events[0].SelectFailed? || (events[0].Interrupted? && EndsEarly(events[1..])))
  }

  /** The line reader reports success without having written its buffer exactly then. */
  lemma {:induction false} UnwrittenExactly(events: seq<Event>, len: nat, got: string)
    requires len > 1
    ensures var line := ReadLine(events, len, got);
      !line.error && !line.timeout && line.text.None? <==> got == "" && EndsEarly(events)
    decreases |events|
  {
    if events != [] {
      match events[0]
      case Interrupted => UnwrittenExactly(events[1..], len, got);
      case Char(c) =>
        if c != '\n' { UnwrittenExactly(events[1..], len, if |got| < len - 1 then got + [c] else got); }
      case _ =>
    }
  }

  /** Trimming runs past the start of the buffer exactly when there is no Base 64 character at all. */
  lemma {:induction false} TrimExactly(s: string)
    ensures Trim(s).None? <==> forall k :: 0 <= k < |s| ==> !IsB64(s[k])
  {
    if s != "" && !IsB64(s[|s| - 1]) {
      TrimExactly(s[..|s| - 1]);
    } else if s != "" {
      assert IsB64(s[|s| - 1]);
    }
  }

  /** The text length that the first line announces, if it announces one, and the events after it. */
  function Announced(events: seq<Event>): Option<(Word, seq<Event>)> {
    var line := ReadLine(events, LINE_SIZE, "");
    if line.error || line.timeout || line.text.None? then None
    else
      var response := ParseResponse(CString(line.text.value));
      if response.None? || response.value.code != 301 then None
      else
        var info := ParseDevInfo(response.value.message);
        if info.None? then None else Some((U32(Decimal.StrToUl(info.value)), line.rest))
  }

  /** The line that follows is read without error or timeout and has no Base 64 character. */
  predicate NoText(events: seq<Event>, len: nat)
    requires len > 0
  {
    var line := ReadLine(events, len, "");
    !line.error && !line.timeout && line.text.Some?
    && forall k :: 0 <= k < |line.text.value| ==> !IsB64(line.text.value[k])
  }

  /** When the client goes on with memory it never wrote: exactly when the connection ends before the status
      line, or before the text whose length (modulo 2^31 not zero) was announced, or when that text has no
      Base 64 character. */
  lemma UnspecifiedExactly(events: seq<Event>)
    ensures ReceiveReply(events).outcome.Unspecified? <==>
      EndsEarly(events) ||
      (Announced(events).Some? &&
       var (length, rest) := Announced(events).value;
       var room := U32(length * 2);
       room > 0 && (EndsEarly(rest) || NoText(rest, room)))
  {
    hide ReadLine, ParseResponse, ParseDevInfo, CString, Decimal.StrToUl, Trim, IsB64;
    UnwrittenExactly(events, LINE_SIZE, "");
    if Announced(events).Some? {
      var (length, rest) := Announced(events).value;
      EvenRoom(length);
      if U32(length * 2) > 0 {
        UnwrittenExactly(rest, U32(length * 2), "");
        var line := ReadLine(rest, U32(length * 2), "");
        if line.text.Some? { TrimExactly(line.text.value); }
      }
    }
    hide U32;
  }

  lemma EvenRoom(length: Word)
    ensures U32(length * 2) != 1
  {
  }

  /** A server that accepts and closes is enough. */
  lemma UnspecifiedWitness()
    ensures ReceiveReply([Closed]) == Transfer(Unspecified, [])
  {
  }

  /** The transfer reports success without any data exactly when the announced length of the text is not a
      multiple of four. */
  lemma NullExactly(events: seq<Event>, length: Word)
    requires ReceiveText(events, length).outcome.Received?
    ensures ReceiveText(events, length).outcome == Received(None) <==> length % 4 != 0
  {
    hide ReadLine, Trim, U32;
    var line := ReadLine(events, U32(length * 2), "");
    TrimShortens(line.text.value);
  }

  /** One character announced and sent. */
  lemma NullWitness()
    ensures ReceiveText([Char('A'), Char('\n')], 1) == Transfer(Received(None), [])
  {
    var events := [Char('A'), Char('\n')];
    assert events[1..] == [Char('\n')] && events[1..][1..] == [];
    assert "" + [events[0].c] == "A";
    assert ReadLine(events[1..], 2, "A") == Line(false, Some("A"), false, []);
    assert ReadLine(events, 2, "") == Line(false, Some("A"), false, []);
  }

  class Client {
    var events: seq<Event>
    var timeout: int

    constructor (events: seq<Event>)
      ensures this.events == events
    {
      this.events := events;
      this.timeout := 2000;
    }

    method ReadLn(len: nat) returns (line: Line)
      requires len > 0
      modifies this`events
      ensures line == ReadLine(old(events), len, "") && events == line.rest
    {
      var got := "";
      while true
        invariant ReadLine(events, len, got) == ReadLine(old(events), len, "")
        decreases |events|
      {
        if events == [] { return Line(false, Finish(got), true, []); }
        var e := events[0];
        events := events[1..];
        match e {
          case TimedOut => return Line(false, Finish(got), true, events);
          case SelectFailed => return Line(false, Finish(got), false, events);
          case Interrupted =>
          case Failed => return Line(true, None, false, events);
          case Closed => return Line(false, Finish(got), false, events);
          case Char(c) =>
            if c == '\n' { return Line(false, Some(got), false, events); }
            if |got| < len - 1 { got := got + [c]; }
        }
      }
    }

    /** The trimming loop of the transfer. */
    method TrimText(s: string) returns (text: Option<string>)
      ensures text == Trim(s)
    {
      var n: nat := |s|;
      assert s[..n] == s;
      while n > 0 && !IsB64(s[n - 1])
        invariant n <= |s| && Trim(s[..n]) == Trim(s)
      {
        assert s[..n][..n - 1] == s[..n - 1];
        n := n - 1;
      }
      return if n == 0 then None else Some(s[..n]);
    }

    /** smarti_client_xfer after the command was written; the socket timeout is restored on every path. */
    method Xfer() returns (outcome: Outcome)
      modifies this
      ensures Transfer(outcome, events) == ReceiveReply(old(events))
      ensures timeout == old(timeout)
    {
      var oldTimeout := timeout;
      timeout := 60000;
      var line := ReadLn(LINE_SIZE);
      if line.error { timeout := oldTimeout; return ReadError; }
      if line.timeout { timeout := oldTimeout; return TimedOutWaiting; }
      timeout := oldTimeout;
      if line.text.None? { return Unspecified; }
      var response := ParseResponse(CString(line.text.value));
      if response.None? { return InvalidResponse; }
      if response.value.code != 301 { return Status(response.value.code, response.value.message); }
      var info := ParseDevInfo(response.value.message);
      if info.None? { return NoLength; }
      outcome := ReceiveData(U32(Decimal.StrToUl(info.value)));
    }

    method ReceiveData(length: Word) returns (outcome: Outcome)
      modifies this`events
      ensures Transfer(outcome, events) == ReceiveText(old(events), length)
    {
      var room := U32(length * 2);
      if room == 0 { return ReadError; }
      var line := ReadLn(room);
      if line.error { return ReadError; }
      if line.timeout { return TimedOutWaiting; }
      if line.text.None? { return Unspecified; }
      var text := TrimText(line.text.value);
      if text.None? { return Unspecified; }
      if |text.value| != length { return LengthMismatch; }
      ReadLineFits(old(events), room, "");
      TrimShortens(line.text.value);
      assert |text.value| < 0x8000_0000;
      var decoded := Base64.Decode(text.value);
      return Received(if decoded == null then None else Some(decoded[..]));
    }
  }
}
