/**
  The XFER reply written by the daemon and read by the client: for every non-empty buffer, and
  whatever signals interrupt the reads, the client returns the same buffer and leaves exactly what
  follows the reply unread.
 */
module XferRoundTrip {
  import opened Words
  import opened Wrappers
  import Base64
  import Decimal
  import opened SmartiServer
  import opened SmartiClient

  /** The events deliver `text`, possibly interrupted between characters, and then go on as `after`. */
  predicate Delivers(events: seq<Event>, text: string, after: seq<Event>)
    decreases |events|
  {
    if text == "" then events == after
    else if events == [] then false
    else if events[0].Interrupted? then Delivers(events[1..], text, after)
    else events[0] == Char(text[0]) && Delivers(events[1..], text[1..], after)
  }

  /** A delivery of two texts is a delivery of the first, then one of the second. */
  lemma {:induction false} DeliversSplit(events: seq<Event>, a: string, b: string, after: seq<Event>)
    returns (middle: seq<Event>)
    requires Delivers(events, a + b, after)
    ensures Delivers(events, a, middle) && Delivers(middle, b, after)
    decreases |events|
  {
    if a == "" {
      assert a + b == b;
      middle := events;
    } else if events[0].Interrupted? {
      middle := DeliversSplit(events[1..], a, b, after);
    } else {
      assert (a + b)[1..] == a[1..] + b;
      middle := DeliversSplit(events[1..], a[1..], b, after);
    }
  }

  predicate OneLine(s: string) {
    forall k :: 0 <= k < |s| ==> s[k] != '\n'
  }

  /** The line reader returns the delivered line whole when it has room for it. */
  lemma {:induction false} ReadsLine(events: seq<Event>, len: nat, got: string, line: string, after: seq<Event>)
    requires len > 0 && OneLine(line) && |got| + |line| < len
    requires Delivers(events, line + "\n", after)
    ensures ReadLine(events, len, got) == Line(false, Some(got + line), false, after)
    decreases |events|
  {
    var text := line + "\n";
    assert text != "";
    if events[0].Interrupted? {
      ReadsLine(events[1..], len, got, line, after);
    } else if line == "" {
      assert text == "\n" && text[1..] == "";
      assert got + line == got;
    } else {
      assert text[0] == line[0] && text[1..] == line[1..] + "\n";
      assert (got + [line[0]]) + line[1..] == got + line;
      ReadsLine(events[1..], len, got + [line[0]], line[1..], after);
    }
  }

  // ---------------------------------------------------------------- the status line

  lemma {:induction false} CStringWhole(s: string)
    requires forall k :: 0 <= k < |s| ==> s[k] != '\0'
    ensures CString(s) == s
  {
    if s != "" { CStringWhole(s[1..]); }
  }

  /** No ": " in digits, so the last one is the one before them. */
  /** The C string in a buffer ends at the first NUL. */
  lemma {:induction false} CStringEnds(s: string, tail: string)
    requires forall k :: 0 <= k < |s| ==> s[k] != '\0'
    ensures CString(s + "\0" + tail) == s
    decreases |s|
  {
    if s != "" {
      CStringEnds(s[1..], tail);
      assert (s + "\0" + tail)[1..] == s[1..] + "\0" + tail;
    }
  }

  lemma {:induction false} DevInfoOfDigits(s: string)
    requires forall k :: 0 <= k < |s| ==> Decimal.IsDigit(s[k])
    ensures ParseDevInfo(s).None?
  {
    if |s| >= 2 { DevInfoOfDigits(s[1..]); }
  }

  lemma {:induction false} DevInfoAfter(prefix: string, digits: string)
    requires forall k :: 0 <= k < |digits| ==> Decimal.IsDigit(digits[k])
    requires digits != ""
    ensures ParseDevInfo(prefix + ": " + digits) == Some(digits)
    decreases |prefix|
  {
    var s := prefix + ": " + digits;
    if prefix == "" {
      assert s[1..] == " " + digits;
      assert (" " + digits)[1..] == digits;
      DevInfoOfDigits(digits);
      assert ParseDevInfo(" " + digits).None?;
      assert s[2..] == digits;
    } else {
      assert s[1..] == prefix[1..] + ": " + digits;
      DevInfoAfter(prefix[1..], digits);
    }
  }

  /** The announcement the daemon sends, as one line. */
  function Announcement(n: nat): string {
    "301 " + ("Data Follows: " + Decimal.Show(n))
  }

  lemma Show301()
    ensures Decimal.Show(301) == "301"
  {
    assert Decimal.Show(3) == "3";
    assert Decimal.Show(30) == "30";
  }

  lemma AnnouncementIs(n: nat)
    ensures Announcement(n) == "301 " + ("Data Follows: " + Decimal.Show(n))
  {
  }

  lemma AnnouncementLine(digits: string)
    requires forall k :: 0 <= k < |digits| ==> Decimal.IsDigit(digits[k])
    ensures var line := "301 " + ("Data Follows: " + digits);
      && OneLine(line) && |line| == 18 + |digits| && (forall k :: 0 <= k < |line| ==> line[k] != '\0')
      && ParseResponse(line) == Some(Response(301, "Data Follows: " + digits))
  {
    var line := "301 " + ("Data Follows: " + digits);
    assert forall k :: 18 <= k < |line| ==> line[k] == digits[k - 18];
    assert line[4..] == "Data Follows: " + digits;
  }

  lemma AnnouncementParses(n: Word)
    ensures var line := Announcement(n);
      && OneLine(line) && |line| < 18 + |Decimal.Show(n)| + 1
      && ParseResponse(CString(line)) == Some(Response(301, "Data Follows: " + Decimal.Show(n)))
      && ParseDevInfo("Data Follows: " + Decimal.Show(n)) == Some(Decimal.Show(n))
      && U32(Decimal.StrToUl(Decimal.Show(n))) == n
  {
    hide Decimal.StrToUl, Announcement, ParseResponse, ParseDevInfo, CString, OneLine, Decimal.Show;
    AnnouncementIs(n);
    var digits := Decimal.Show(n);
    AnnouncementLine(digits);
    CStringWhole(Announcement(n));
    assert "Data Follows: " + digits == "Data Follows" + ": " + digits;
    DevInfoAfter("Data Follows", digits);
    Decimal.StrToUlOfShow(n);
  }

  lemma {:induction false} ShowLength(n: nat, d: nat)
    requires n < Pow10(d) && d > 0
    ensures |Decimal.Show(n)| <= d
  {
    if n >= 10 { ShowLength(n / 10, d - 1); }
  }

  function Pow10(d: nat): nat {
    if d == 0 then 1 else 10 * Pow10(d - 1)
  }

  // ---------------------------------------------------------------- the text

  lemma TrimKeeps(s: string)
    requires s != "" && IsB64(s[|s| - 1])
    ensures Trim(s) == Some(s)
  {
  }

  lemma EncodedText(data: seq<Byte>)
    requires data != []
    ensures var text := Base64.Encoded(data);
      OneLine(text) && text != "" && forall t :: 0 <= t < |text| ==> IsB64(text[t])
  {
    var text := Base64.Encoded(data);
    forall t | 0 <= t < |text| ensures IsB64(text[t]) && text[t] != '\n' {
      EncodedCharB64(data, t);
    }
  }

  lemma EncodedCharB64(data: seq<Byte>, t: nat)
    requires data != [] && t < Base64.EncodedLength(|data|)
    ensures IsB64(Base64.EncodedAt(data, t)) && Base64.EncodedAt(data, t) != '\n'
  {
    hide Base64.Sextet;
  }

  lemma TextDecoded(text: string, data: seq<Byte>, events: seq<Event>, after: seq<Event>)
    requires 0 < |text| < 0x8000_0000 && OneLine(text) && IsB64(text[|text| - 1])
    requires Base64.Decoded(text) == Some(data)
    requires Delivers(events, text + "\n", after)
    ensures ReceiveText(events, |text|) == Transfer(Received(Some(data)), after)
  {
    hide Base64.Decoded, Delivers, ReadLine, IsB64, Trim;
    ReadsLine(events, 2 * |text|, "", text, after);
    assert "" + text == text;
    TrimKeeps(text);
    SmallMod(|text| * 2, TWO_32);
  }

  /** The text of the reply is received, measured and decoded to the data. */
  lemma TextReceived(data: seq<Byte>, events: seq<Event>, after: seq<Event>)
    requires data != [] && Base64.EncodedLength(|data|) < 0x8000_0000
    requires Delivers(events, Base64.Encoded(data) + "\n", after)
    ensures ReceiveText(events, |Base64.Encoded(data)|) == Transfer(Received(Some(data)), after)
  {
    Base64.DecodeEncode(data);
    EncodedText(data);
    hide *;
    TextDecoded(Base64.Encoded(data), data, events, after);
  }

  /** The reply as it is sent. */
  lemma DataReplyIs(data: seq<Byte>)
    requires data != [] && Base64.EncodedLength(|data|) < 0x8000_0000
    ensures var text := Base64.Encoded(data);
      DataReply(data) == "301 Data Follows: " + Decimal.Show(|text|) + "\n" + text + "\n"
  {
    hide Base64.Encoded, Decimal.Show;
    Show301();
    var digits := Decimal.Show(|Base64.Encoded(data)|);
    assert "301" + " " + ("Data Follows: " + digits) + "\n" == "301 Data Follows: " + digits + "\n";
  }

  /** A text of another length than the one announced is refused, whatever it decodes to. */
  lemma LengthChecked(text: string, length: nat, events: seq<Event>, after: seq<Event>)
    requires 0 < |text| < 2 * length < TWO_32 && OneLine(text) && IsB64(text[|text| - 1])
    requires Delivers(events, text + "\n", after)
    ensures ReceiveText(events, length) ==
      Transfer(if |text| == length then Received(DecodeText(text)) else LengthMismatch, after)
  {
    hide ReadLine, Delivers, Trim, IsB64, DecodeText;
    ReadsLine(events, 2 * length, "", text, after);
    assert "" + text == text;
    TrimKeeps(text);
    SmallMod(length * 2, TWO_32);
  }

  /** Trimming keeps everything up to the last character of the alphabet or padding. */
  lemma {:induction false} TrimMeaning(s: string, n: nat)
    requires 0 < n <= |s| && IsB64(s[n - 1]) && forall k :: n <= k < |s| ==> !IsB64(s[k])
    ensures Trim(s) == Some(s[..n])
    decreases |s|
  {
    hide IsB64;
    if n < |s| {
      TrimMeaning(s[..|s| - 1], n);
      assert s[..|s| - 1][..n] == s[..n];
    } else {
      assert s[..n] == s;
    }
  }

  lemma IsB64Exactly(c: char)
    ensures IsB64(c) <==> c in Base64.ALPHABET || c == '='
  {
    hide Base64.EncodeChar, Base64.ALPHABET;
    Base64.AlphabetExactly(0, c);
  }

  /** The XFER round trip. */
  lemma ReplyReceived(data: seq<Byte>, events: seq<Event>, after: seq<Event>)
    requires data != [] && Base64.EncodedLength(|data|) < 0x8000_0000
    requires Delivers(events, DataReply(data), after)
    ensures ReceiveReply(events) == Transfer(Received(Some(data)), after)
  {
    hide ReadLine, ReceiveText, Delivers, Decimal.Show, Decimal.StrToUl, ParseResponse, ParseDevInfo, CString;
    var text := Base64.Encoded(data);
    Show301();
    var line := Announcement(|text|);
    assert DataReply(data) == (line + "\n") + (text + "\n");
    var middle := DeliversSplit(events, line + "\n", text + "\n", after);
    AnnouncementParses(|text|);
    assert Pow10(10) == 10_000_000_000;
    ShowLength(|text|, 10);
    ReadsLine(events, LINE_SIZE, "", line, middle);
    assert "" + line == line;
    TextReceived(data, middle, after);
  }

  // ---------------------------------------------------------------- other statuses

  lemma ShowThree(code: nat)
    requires 100 <= code <= 999
    ensures Decimal.Show(code) ==
      [Decimal.DigitChar(code / 100), Decimal.DigitChar(code / 10 % 10), Decimal.DigitChar(code % 10)]
  {
    assert Decimal.Show(code / 100) == [Decimal.DigitChar(code / 100)];
    assert Decimal.Show(code / 10) == Decimal.Show(code / 10 / 10) + [Decimal.DigitChar(code / 10 % 10)];
    assert code / 10 / 10 == code / 100;
  }

  /** A status line parses to its code and its message. */
  lemma StatusParses(code: nat, msg: string)
    requires 100 <= code <= 999
    ensures ParseResponse(Decimal.Show(code) + " " + msg) == Some(Response(code, msg))
  {
    hide Decimal.Show, Decimal.DigitChar, Decimal.DigitOf, Decimal.IsDigit;
    ShowThree(code);
    var line := Decimal.Show(code) + " " + msg;
    assert line[4..] == msg && line[3] == ' ';
    assert code == code / 100 * 100 + code / 10 % 10 * 10 + code % 10;
  }

  lemma DigitsPlain(code: nat)
    ensures forall k :: 0 <= k < |Decimal.Show(code)| ==> Decimal.Show(code)[k] != '\n' && Decimal.Show(code)[k] != '\0'
  {
  }

  /** Every other status that the daemon sends reaches the client's caller with its code and message. */
  lemma StatusReceived(code: nat, msg: string, events: seq<Event>, after: seq<Event>)
    requires 100 <= code <= 999 && code != 301
    requires OneLine(msg) && '\0' !in msg && 4 + |msg| < LINE_SIZE
    requires Delivers(events, ResponseLine(code, msg), after)
    ensures ReceiveReply(events) == Transfer(Status(code, msg), after)
  {
    hide ReadLine, Delivers, Decimal.Show, ParseResponse, CString;
    var line := Decimal.Show(code) + " " + msg;
    DigitsPlain(code);
    ShowThree(code);
    assert ResponseLine(code, msg) == line + "\n";
    ReadsLine(events, LINE_SIZE, "", line, after);
    assert "" + line == line;
    CStringWhole(line);
    StatusParses(code, msg);
  }

  /** The daemon's lines, letter by letter. */
  lemma ResponseLineIs(msg: string)
    ensures ResponseLine(440, msg) == "440 " + msg + "\n"
    ensures ResponseLine(243, msg) == "243 " + msg + "\n"
  {
    ShowThree(440);
    ShowThree(243);
    assert Decimal.DigitChar(4) == '4' && Decimal.DigitChar(0) == '0';
    assert Decimal.DigitChar(2) == '2' && Decimal.DigitChar(3) == '3';
  }

  // ---------------------------------------------------------------- any line

  /** What the line reader does with characters that are no newline, whatever comes after them: it goes on
      with as many of them as fit. */
  lemma {:induction false} ReadsOn(events: seq<Event>, len: nat, got: string, text: string, after: seq<Event>)
    requires len > 0 && OneLine(text) && |got| < len && Delivers(events, text, after)
    ensures var kept := got + text;
      ReadLine(events, len, got) == ReadLine(after, len, if |kept| < len then kept else kept[..len - 1])
    decreases |events|
  {
    if text == "" {
      assert got + text == got;
    } else if events[0].Interrupted? {
      ReadsOn(events[1..], len, got, text, after);
    } else {
      var next := if |got| < len - 1 then got + [text[0]] else got;
      assert text[0] != '\n';
      ReadsOn(events[1..], len, next, text[1..], after);
      var kept := got + text;
      if |got| < len - 1 {
        assert next + text[1..] == kept;
      } else {
        assert (next + text[1..])[..len - 1] == got == kept[..len - 1];
      }
    }
  }

  /** How a line ends: the newline, a timeout, the end of the connection, an error. */
  lemma LineEnds(after: seq<Event>, len: nat, got: string)
    requires len > 0 && after != []
    ensures after[0] == Char('\n') ==> ReadLine(after, len, got) == Line(false, Some(got), false, after[1..])
    ensures after[0] == Failed ==> ReadLine(after, len, got) == Line(true, None, false, after[1..])
    ensures after[0] == TimedOut || after[0] == Closed || after[0] == SelectFailed ==>
      ReadLine(after, len, got) ==
        Line(false, if got == "" then None else Some(got), after[0] == TimedOut, after[1..])
  {
  }

  // ---------------------------------------------------------------- the information in a message

  predicate SeparatorAt(msg: string, k: nat) {
    k + 1 < |msg| && msg[k] == ':' && msg[k + 1] == ' '
  }

  /** The information is what follows the last ": ", and there is none exactly when there is no ": ". */
  lemma {:induction false} DevInfoExactly(msg: string)
    ensures ParseDevInfo(msg).None? <==> forall k: nat :: !SeparatorAt(msg, k)
    ensures forall k: nat :: SeparatorAt(msg, k) && (forall j: nat :: j > k ==> !SeparatorAt(msg, j)) ==>
      ParseDevInfo(msg) == Some(msg[k + 2..])
  {
    if |msg| >= 2 {
      DevInfoExactly(msg[1..]);
      assert forall k: nat :: SeparatorAt(msg[1..], k) <==> SeparatorAt(msg, k + 1);
      assert SeparatorAt(msg, 0) <==> msg[0] == ':' && msg[1] == ' ';
      forall k: nat | SeparatorAt(msg, k) && (forall j: nat :: j > k ==> !SeparatorAt(msg, j))
        ensures ParseDevInfo(msg) == Some(msg[k + 2..])
      {
        if k > 0 {
          assert SeparatorAt(msg[1..], k - 1);
          assert msg[1..][k - 1 + 2..] == msg[k + 2..];
        } else {
          forall j: nat ensures !SeparatorAt(msg[1..], j) { assert !SeparatorAt(msg, j + 1); }
        }
      }
      if ParseDevInfo(msg).None? {
        forall k: nat ensures !SeparatorAt(msg, k) { if k > 0 { assert !SeparatorAt(msg[1..], k - 1); } }
      }
      if forall k: nat :: !SeparatorAt(msg, k) {
        forall k: nat ensures !SeparatorAt(msg[1..], k) { assert !SeparatorAt(msg, k + 1); }
      }
    }
  }
}
