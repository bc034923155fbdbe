/**
  The argument string scanner: colon-separated name=value pairs with doubled '=' and ':' as escapes,
  built into a linked list.
 */
module ArgList {
  import opened Words

  datatype Pair = Pair(name: string, value: string)

  /** Result of a parse.  Overlong is not a result of the source: it marks a name or value that does not
      fit, with its NUL, into its 258-character buffer, so that the source writes or reads past it. */
  datatype Parsed = Ok(pairs: seq<Pair>) | Invalid | Overlong

  /** The longest name or value that leaves room for the NUL. */
  const LONGEST: nat := 257

  /** What the scanner reads with buffers of any length: the pairs up to the end, or, when a lone '=' in a
      value makes it stop, up to and including the pair it was in. */
  datatype Tokens = Tokens(pairs: seq<Pair>, valid: bool)

  /** The scanner from a position inside an entry: whether it is in the name, and what it has so far. */
  function Scan(s: string, inName: bool, name: string, value: string): Tokens
    decreases |s|
  {
    if s == "" then Tokens([Pair(name, value)], true)
    else if s[0] == '=' && !(|s| > 1 && s[1] == '=') then
      if inName then Scan(s[1..], false, name, value) else Tokens([Pair(name, value)], false)
    else if s[0] == ':' && !(|s| > 1 && s[1] == ':') then
      Prepend(Pair(name, value), Scan(s[1..], true, "", ""))
    else
      var rest := if s[0] == '=' || s[0] == ':' then s[2..] else s[1..];
      if inName then Scan(rest, true, name + [s[0]], value) else Scan(rest, false, name, value + [s[0]])
  }

  function Prepend(p: Pair, r: Tokens): Tokens {
    Tokens([p] + r.pairs, r.valid)
  }

  /** Whether pair k does not fit its buffers.  The value in which the scanner stops gets no NUL. */
  predicate Overruns(r: Tokens, k: nat)
    requires k < |r.pairs|
  {
    || |r.pairs[k].name| > LONGEST
    || |r.pairs[k].value| > (if !r.valid && k == |r.pairs| - 1 then LONGEST + 1 else LONGEST)
  }

  predicate TooLong(r: Tokens) {
    exists k: nat :: k < |r.pairs| && Overruns(r, k)
  }

  /** arglist_parse on a whole string: it runs past a buffer exactly when a token that it reads is too long;
      otherwise it fails exactly when it stops early. */
  function Parse(s: string): Parsed {
    ResultOf(Scan(s, true, "", ""))
  }

  function ResultOf(r: Tokens): Parsed {
    if TooLong(r) then Overlong else if r.valid then Ok(r.pairs) else Invalid
  }

  // ---------------------------------------------------------------- the linked list

  class Entry {
    const name: string
    const value: string
    var next: Entry?

    constructor (name: string, value: string)
      ensures this.name == name && this.value == value && next == null
    {
      this.name := name;
      this.value := value;
      this.next := null;
    }

    function Contents(): Pair {
      Pair(name, value)
    }
  }

  /** `head` starts a list made of exactly these entries, in order. */
  ghost predicate IsList(head: Entry?, entries: seq<Entry>)
    reads entries
  {
    && (head == null <==> entries == [])
    && (entries != [] ==> head == entries[0] && entries[|entries| - 1].next == null)
    && (forall i {:trigger entries[i].next} :: 0 <= i < |entries| - 1 ==> entries[i].next == entries[i + 1])
    && forall i, j :: 0 <= i < j < |entries| ==> entries[i] != entries[j]
  }

  function PairsOf(entries: seq<Entry>): (p: seq<Pair>)
    ensures |p| == |entries| && forall i :: 0 <= i < |p| ==> p[i] == entries[i].Contents()
  {
    seq(|entries|, i requires 0 <= i < |entries| => entries[i].Contents())
  }

  lemma PairsLast(entries: seq<Entry>, e: Entry)
    ensures PairsOf(entries + [e]) == PairsOf(entries) + [e.Contents()]
  {
  }

  lemma Remaining(s: string, p: nat)
    requires p < |s|
    ensures |s[p..]| == |s| - p && s[p..][0] == s[p] && s[p..][1..] == s[p + 1..]
    ensures p + 1 < |s| ==> s[p..][1] == s[p + 1] && s[p..][2..] == s[p + 2..]
  {
  }

  /** Appends an entry after `cur`, the last one, or makes it the head. */
  method Link(head: Entry?, cur: Entry?, name: string, value: string, ghost entries: seq<Entry>)
    returns (head': Entry, cur': Entry)
    requires IsList(head, entries)
    requires entries != [] ==> cur == entries[|entries| - 1]
    modifies cur
    ensures fresh(cur') && IsList(head', entries + [cur'])
    ensures PairsOf(entries + [cur']) == PairsOf(entries) + [Pair(name, value)]
  {
    cur' := new Entry(name, value);
    PairsLast(entries, cur');
    if head == null {
      head' := cur';
    } else {
      head' := head;
      cur.next := cur';
    }
  }

  /** The loop invariant of the scanner: entries so far, then what scanning the rest yields. */
  ghost predicate Continues(all: Tokens, rest: string, inName: bool, name: string, value: string, done: seq<Pair>) {
    var r := Scan(rest, inName, name, value);
    all == Tokens(done + r.pairs, r.valid)
  }

  lemma ContinuesStarts(s: string)
    ensures Continues(Scan(s, true, "", ""), s, true, "", "", PairsOf([])) && IsList(null, []) && AllShort(PairsOf([]))
  {
    assert PairsOf([]) == [];
    var r := Scan(s, true, "", "");
    assert [] + r.pairs == r.pairs;
  }

  lemma ContinuesEnds(all: Tokens, inName: bool, name: string, value: string, done: seq<Pair>)
    requires Continues(all, "", inName, name, value, done)
    ensures all == Tokens(done + [Pair(name, value)], true)
  {
  }

  lemma ContinuesEquals(all: Tokens, s: string, inName: bool, name: string, value: string, done: seq<Pair>)
    requires Continues(all, s, inName, name, value, done)
    requires s != "" && s[0] == '=' && !(|s| > 1 && s[1] == '=')
    ensures if inName then Continues(all, s[1..], false, name, value, done)
      else all == Tokens(done + [Pair(name, value)], false)
  {
  }

  lemma ContinuesNext(all: Tokens, s: string, inName: bool, name: string, value: string, done: seq<Pair>)
    requires Continues(all, s, inName, name, value, done)
    requires s != "" && s[0] == ':' && !(|s| > 1 && s[1] == ':')
    ensures Continues(all, s[1..], true, "", "", done + [Pair(name, value)])
    ensures |all.pairs| > |done| + 1 && all.pairs[|done|] == Pair(name, value)
  {
    var r := Scan(s[1..], true, "", "");
    ConcatAssoc(done, [Pair(name, value)], r.pairs);
    ScanExtends(s[1..], true, "", "");
  }

  /** A character of the current token: an escape takes two characters of the string. */
  lemma ContinuesChar(all: Tokens, s: string, inName: bool, name: string, value: string, done: seq<Pair>)
    requires Continues(all, s, inName, name, value, done) && s != ""
    requires (s[0] == '=' || s[0] == ':') ==> |s| > 1 && s[1] == s[0]
    ensures Continues(all, if s[0] == '=' || s[0] == ':' then s[2..] else s[1..], inName,
                      if inName then name + [s[0]] else name, if inName then value else value + [s[0]], done)
  {
  }

  /** A token that is too long already stays so. */
  lemma ContinuesLong(all: Tokens, s: string, inName: bool, name: string, value: string, done: seq<Pair>)
    requires Continues(all, s, inName, name, value, done)
    requires |name| > LONGEST + 1 || |value| > LONGEST + 1 || (!inName && |name| > LONGEST)
    ensures ResultOf(all) == Overlong
  {
    ScanExtends(s, inName, name, value);
    assert all.pairs[|done|] == Scan(s, inName, name, value).pairs[0];
    assert Overruns(all, |done|);
  }

  predicate AllShort(pairs: seq<Pair>) {
    forall k :: 0 <= k < |pairs| ==> Short(pairs[k])
  }

  lemma ShortLast(done: seq<Pair>, p: Pair)
    requires AllShort(done) && Short(p)
    ensures AllShort(done + [p])
  {
  }

  /** The result when every finished pair fits, by how the scanner ended. */
  lemma FinishedParse(all: Tokens, done: seq<Pair>, p: Pair)
    requires AllShort(done) && all.pairs == done + [p] && |p.value| <= LONGEST + 1
    ensures |p.name| <= LONGEST && !all.valid ==> ResultOf(all) == Invalid
    ensures all.valid ==> ResultOf(all) == if Short(p) then Ok(done + [p]) else Overlong
  {
    assert forall k :: 0 <= k < |done| ==> all.pairs[k] == done[k];
    if all.valid && !Short(p) { assert Overruns(all, |done|); }
  }

  /** The loop invariant: nothing has run past a buffer, and the rest yields the rest. */
  ghost predicate Scanning(all: Tokens, rest: string, inName: bool, name: string, value: string, done: seq<Pair>) {
    && Continues(all, rest, inName, name, value, done) && AllShort(done)
    && |name| <= LONGEST + 1 && |value| <= LONGEST + 1 && (if inName then value == "" else |name| <= LONGEST)
  }

  lemma AtStart(s: string)
    ensures Scanning(Scan(s, true, "", ""), s, true, "", "", PairsOf([])) && IsList(null, [])
  {
    ContinuesStarts(s);
  }

  lemma AtEquals(all: Tokens, s: string, inName: bool, name: string, value: string, done: seq<Pair>)
    requires Scanning(all, s, inName, name, value, done)
    requires s != "" && s[0] == '=' && !(|s| > 1 && s[1] == '=')
    ensures !inName ==> ResultOf(all) == Invalid
    ensures inName && |name| > LONGEST ==> ResultOf(all) == Overlong
    ensures inName && |name| <= LONGEST ==> Scanning(all, s[1..], false, name, value, done)
  {
    hide Scan, Continues, ResultOf, AllShort;
    ContinuesEquals(all, s, inName, name, value, done);
    if !inName {
      FinishedParse(all, done, Pair(name, value));
    } else if |name| > LONGEST {
      ContinuesLong(all, s[1..], false, name, value, done);
    }
  }

  lemma AtColon(all: Tokens, s: string, inName: bool, name: string, value: string, done: seq<Pair>)
    requires Scanning(all, s, inName, name, value, done)
    requires s != "" && s[0] == ':' && !(|s| > 1 && s[1] == ':')
    ensures if Short(Pair(name, value)) then Scanning(all, s[1..], true, "", "", done + [Pair(name, value)])
      else ResultOf(all) == Overlong
  {
    hide Scan, Continues, ResultOf, AllShort;
    ContinuesNext(all, s, inName, name, value, done);
    if Short(Pair(name, value)) {
      ShortLast(done, Pair(name, value));
    } else {
      NextLong(all, |done|);
    }
  }

  lemma AtChar(all: Tokens, s: string, inName: bool, name: string, value: string, done: seq<Pair>, rest: string)
    requires Scanning(all, s, inName, name, value, done) && s != ""
    requires (s[0] == '=' || s[0] == ':') ==> |s| > 1 && s[1] == s[0]
    requires rest == if s[0] == '=' || s[0] == ':' then s[2..] else s[1..]
    ensures inName ==> if |name| > LONGEST then ResultOf(all) == Overlong
                       else Scanning(all, rest, true, name + [s[0]], value, done)
    ensures !inName ==> if |value| > LONGEST then ResultOf(all) == Overlong
                        else Scanning(all, rest, false, name, value + [s[0]], done)
  {
    hide Scan, Continues, ResultOf, AllShort;
    ContinuesChar(all, s, inName, name, value, done);
    if inName && |name| > LONGEST { ContinuesLong(all, rest, true, name + [s[0]], value, done); }
    if !inName && |value| > LONGEST { ContinuesLong(all, rest, false, name, value + [s[0]], done); }
  }

  lemma AtEnd(all: Tokens, inName: bool, name: string, value: string, done: seq<Pair>)
    requires Scanning(all, "", inName, name, value, done)
    ensures ResultOf(all) == if Short(Pair(name, value)) then Ok(done + [Pair(name, value)]) else Overlong
  {
    ContinuesEnds(all, inName, name, value, done);
    FinishedParse(all, done, Pair(name, value));
  }

  datatype Code = Success | InvalidArgument | PastBuffer

  /** arglist_parse.  Every place where the source would leave a buffer returns PastBuffer. */
  method ArgListParse(argstring: string) returns (code: Code, head: Entry?, ghost entries: seq<Entry>)
    ensures match Parse(argstring)
      case Invalid => code == InvalidArgument && head == null
      case Overlong => code == PastBuffer && head == null
      case Ok(pairs) => code == Success && IsList(head, entries) && PairsOf(entries) == pairs
    ensures forall e :: e in entries ==> fresh(e)
  {
    hide Scan, Scanning, PairsOf, IsList, ResultOf;
    head, entries := null, [];
    var cur: Entry? := null;
    var first: Entry? := null;
    var p: nat, l: nat := 0, |argstring|;
    var inName, name, value := true, "", "";
    ghost var all := Scan(argstring, true, "", "");
    assert argstring[0..] == argstring;
    AtStart(argstring);
    while p < l
      invariant p <= l
      invariant Scanning(all, argstring[p..], inName, name, value, PairsOf(entries))
      invariant IsList(first, entries)
      invariant entries != [] ==> cur == entries[|entries| - 1]
      invariant forall e :: e in entries ==> fresh(e)
      invariant cur != null ==> fresh(cur)
    {
      ghost var rest := argstring[p..];
      Remaining(argstring, p);
      var c := argstring[p];
      var doubled := p < l - 1 && argstring[p + 1] == c;
      if c == '=' && !doubled {
        AtEquals(all, rest, inName, name, value, PairsOf(entries));
        if !inName { return InvalidArgument, null, []; }
        if |name| > LONGEST { return PastBuffer, null, []; }
        inName := false;
      } else if c == ':' && !doubled {
        AtColon(all, rest, inName, name, value, PairsOf(entries));
        if |name| > LONGEST || |value| > LONGEST { return PastBuffer, null, []; }
        first, cur := Link(first, cur, name, value, entries);
        entries := entries + [cur];
        name, value, inName := "", "", true;
      } else {
        if c == '=' || c == ':' {
          p := p + 1;
        }
        AtChar(all, rest, inName, name, value, PairsOf(entries), argstring[p + 1..]);
        if |if inName then name else value| > LONGEST { return PastBuffer, null, []; }
        if inName { name := name + [c]; } else { value := value + [c]; }
      }
      p := p + 1;
    }
    assert argstring[p..] == "";
    AtEnd(all, inName, name, value, PairsOf(entries));
    if |name| > LONGEST || |value| > LONGEST { return PastBuffer, null, []; }
    first, cur := Link(first, cur, name, value, entries);
    entries := entries + [cur];
    return Success, first, entries;
  }

  lemma NextLong(all: Tokens, k: nat)
    requires k + 1 < |all.pairs| && !Short(all.pairs[k])
    ensures ResultOf(all) == Overlong
  {
    assert Overruns(all, k);
  }

  // ---------------------------------------------------------------- lookups

  datatype Found = Value(value: string) | Empty | Missing

  /** The first pair with the name decides. */
  function Lookup(pairs: seq<Pair>, name: string): Found {
    if pairs == [] then Missing
    else if pairs[0].name == name then (if pairs[0].value == "" then Empty else Value(pairs[0].value))
    else Lookup(pairs[1..], name)
  }

  /** Entry k is the first with the name. */
  ghost predicate FirstNamed(entries: seq<Entry>, name: string, k: nat) {
    k < |entries| && entries[k].name == name && forall j :: 0 <= j < k ==> entries[j].name != name
  }

  /** The answer by the first entry with the name, or by there being none. */
  lemma {:induction false} LookupExactly(pairs: seq<Pair>, name: string)
    ensures Lookup(pairs, name) == Missing <==> forall k :: 0 <= k < |pairs| ==> pairs[k].name != name
    ensures forall k | 0 <= k < |pairs| && pairs[k].name == name && (forall j :: 0 <= j < k ==> pairs[j].name != name) ::
      Lookup(pairs, name) == if pairs[k].value == "" then Empty else Value(pairs[k].value)
  {
    if pairs != [] && pairs[0].name != name {
      LookupExactly(pairs[1..], name);
      assert forall j :: 1 <= j < |pairs| ==> pairs[j] == pairs[1..][j - 1];
      assert forall j :: 0 <= j < |pairs| - 1 ==> pairs[1..][j] == pairs[j + 1];
      forall k | 0 <= k < |pairs| && pairs[k].name == name && (forall j :: 0 <= j < k ==> pairs[j].name != name)
        ensures Lookup(pairs, name) == if pairs[k].value == "" then Empty else Value(pairs[k].value)
      {
        assert pairs[1..][k - 1] == pairs[k];
      }
    }
  }

  /** arglist_read_string. */
  method ReadString(head: Entry?, name: string, ghost entries: seq<Entry>) returns (r: Found)
    requires IsList(head, entries)
    ensures r == Lookup(PairsOf(entries), name)
    ensures r == Missing <==> forall k :: 0 <= k < |entries| ==> entries[k].name != name
    ensures forall k: nat :: FirstNamed(entries, name, k) ==>
      r == if entries[k].value == "" then Empty else Value(entries[k].value)
  {
    var entry := head;
    ghost var k := 0;
    LookupExactly(PairsOf(entries), name);
    while entry != null
      invariant k <= |entries| && (entry == null <==> k == |entries|)
      invariant k < |entries| ==> entry == entries[k]
      invariant forall j :: 0 <= j < k ==> entries[j].name != name
      decreases |entries| - k
    {
      if entry.name == name {
        return if entry.value == "" then Empty else Value(entry.value);
      }
      entry := entry.next;
      k := k + 1;
    }
    return Missing;
  }

  /** arglist_count. */
  method Count(head: Entry?, ghost entries: seq<Entry>) returns (c: nat)
    requires IsList(head, entries)
    ensures c == |entries|
  {
    c := 0;
    var entry := head;
    while entry != null
      invariant c <= |entries| && (entry == null <==> c == |entries|)
      invariant c < |entries| ==> entry == entries[c]
      decreases |entries| - c
    {
      c := c + 1;
      entry := entry.next;
    }
  }

  // ---------------------------------------------------------------- round trip

  /** A name or value with every '=' and ':' doubled. */
  function Escape(t: string): string {
    if t == "" then ""
    else (if t[0] == '=' || t[0] == ':' then [t[0], t[0]] else [t[0]]) + Escape(t[1..])
  }

  /** Pairs as the documentation of arglist_parse asks for them. */
  function Print(pairs: seq<Pair>): string {
    if pairs == [] then ""
    else
      Escape(pairs[0].name) + "=" + Escape(pairs[0].value)
      + (if |pairs| == 1 then "" else ":" + Print(pairs[1..]))
  }

  predicate Short(p: Pair) {
    |p.name| <= LONGEST && |p.value| <= LONGEST
  }

  predicate Plain(p: Pair) {
    Short(p) && !("=" <= p.value)
  }

  /** When a printed list cannot be misread: no value begins with '=', no name after the first begins
      with ':', and nothing is too long for the buffers. */
  predicate Unambiguous(pairs: seq<Pair>) {
    pairs == [] ||
    (Plain(pairs[0]) && (|pairs| > 1 ==> !(":" <= pairs[1].name)) && Unambiguous(pairs[1..]))
  }

  lemma EscapeNone()
    ensures Escape("") == ""
  {
  }

  /** Escaped text is scanned back character by character, whatever follows it. */
  lemma {:induction false} ScanEscaped(t: string, tail: string, inName: bool, name: string, value: string)
    ensures Scan(Escape(t) + tail, inName, name, value) ==
      Scan(tail, inName, if inName then name + t else name, if inName then value else value + t)
    decreases |t|
  {
    hide Scan, Escape;
    if t == "" {
      EscapeNone();
      assert Escape(t) + tail == tail && name + t == name && value + t == value;
    } else {
      ScanEscapedChar(t, tail, inName, name, value);
      var name', value' := if inName then name + [t[0]] else name, if inName then value else value + [t[0]];
      ScanEscaped(t[1..], tail, inName, name', value');
      assert name + [t[0]] + t[1..] == name + t && value + [t[0]] + t[1..] == value + t;
    }
  }

  lemma ScanEscapedChar(t: string, tail: string, inName: bool, name: string, value: string)
    requires t != ""
    ensures Scan(Escape(t) + tail, inName, name, value) ==
      Scan(Escape(t[1..]) + tail, inName, if inName then name + [t[0]] else name,
           if inName then value else value + [t[0]])
  {
    var c, rest := t[0], Escape(t[1..]) + tail;
    if c == '=' || c == ':' {
      assert Escape(t) + tail == [c, c] + rest;
      ScanChar([c, c] + rest, rest, c, inName, name, value);
    } else {
      assert Escape(t) + tail == [c] + rest;
      ScanChar([c] + rest, rest, c, inName, name, value);
    }
  }

  lemma ScanChar(s: string, rest: string, c: char, inName: bool, name: string, value: string)
    requires s == if c == '=' || c == ':' then [c, c] + rest else [c] + rest
    ensures Scan(s, inName, name, value) ==
      Scan(rest, inName, if inName then name + [c] else name, if inName then value else value + [c])
  {
    assert s[if c == '=' || c == ':' then 2 else 1..] == rest;
  }

  /** The scanner never shortens the entry it is in: the first pair extends the name, or keeps the name and
      extends the value. */
  lemma {:induction false} ScanExtends(s: string, inName: bool, name: string, value: string)
    ensures var pairs := Scan(s, inName, name, value).pairs;
      pairs != [] && (if inName then name <= pairs[0].name else name == pairs[0].name)
      && value <= pairs[0].value
    decreases |s|
  {
    if s != "" {
      if s[0] == '=' && !(|s| > 1 && s[1] == '=') {
        if inName { ScanExtends(s[1..], false, name, value); }
      } else if s[0] == ':' && !(|s| > 1 && s[1] == ':') {
      } else {
        var rest := if s[0] == '=' || s[0] == ':' then s[2..] else s[1..];
        if inName {
          ScanExtends(rest, true, name + [s[0]], value);
        } else {
          ScanExtends(rest, false, name, value + [s[0]]);
        }
      }
    }
  }

  /** The lone '=' between name and value, and the value after it. */
  lemma ScanEquals(name: string, value: string, tail: string)
    requires !("=" <= tail)
    ensures var r := Scan("=" + Escape(value) + tail, true, name, "");
      && (!("=" <= value) ==> r == Scan(tail, false, name, value))
      && ("=" <= value ==> r.pairs != [] && r.pairs[0].name != name)
  {
    var s := "=" + Escape(value) + tail;
    if "=" <= value {
      assert s[1] == '=';
      ScanExtends(s[2..], true, name + "=", "");
    } else {
      assert s[1..] == Escape(value) + tail;
      assert value != "" ==> s[1] == Escape(value)[0] == value[0];
      assert value == "" && tail != "" ==> s[1] == tail[0];
      assert "" + value == value;
      ScanEscaped(value, tail, false, name, "");
    }
  }

  /** The lone ':' between two pairs. */
  lemma ScanColon(name: string, value: string, pairs: seq<Pair>)
    requires pairs != []
    ensures var r := Scan(":" + Print(pairs), false, name, value);
      && (!(":" <= pairs[0].name) ==> r == Prepend(Pair(name, value), Scan(Print(pairs), true, "", "")))
      && (":" <= pairs[0].name ==> r.pairs != [] && r.pairs[0].value != value)
  {
    var s := ":" + Print(pairs);
    assert s[1..] == Print(pairs) && Print(pairs) != "";
    var first := pairs[0].name;
    if ":" <= first {
      assert Escape(first)[0] == ':';
      assert s[1] == ':';
      ScanExtends(s[2..], false, name, value + ":");
    } else if first == "" {
      assert Print(pairs)[0] == '=';
    } else {
      assert Print(pairs)[0] == Escape(first)[0] == first[0];
    }
  }

  lemma PrintFirst(pairs: seq<Pair>)
    requires pairs != []
    ensures var tail := if |pairs| == 1 then "" else ":" + Print(pairs[1..]);
      Print(pairs) == Escape(pairs[0].name) + ("=" + Escape(pairs[0].value) + tail)
  {
    hide Escape;
    var tail := if |pairs| == 1 then "" else ":" + Print(pairs[1..]);
    Regroup(Escape(pairs[0].name), "=", Escape(pairs[0].value), tail);
  }

  lemma Regroup(a: string, b: string, c: string, d: string)
    ensures a + b + c + d == a + (b + c + d)
  {
  }

  lemma ScanEnd(name: string, value: string)
    ensures Scan("", false, name, value) == Tokens([Pair(name, value)], true)
  {
  }

  /** One pair of a printed list: it is read as printed and the rest is scanned on its own, or the list
      that comes out begins differently. */
  lemma ScanFirst(pairs: seq<Pair>)
    requires pairs != []
    ensures var r := Scan(Print(pairs), true, "", "");
      && (|pairs| == 1 && !("=" <= pairs[0].value) ==> r == Tokens([pairs[0]], true))
      && (|pairs| > 1 && !("=" <= pairs[0].value) && !(":" <= pairs[1].name) ==>
            r == Prepend(pairs[0], Scan(Print(pairs[1..]), true, "", "")))
      && ("=" <= pairs[0].value || (|pairs| > 1 && ":" <= pairs[1].name) ==> r.pairs != pairs)
  {
    hide Scan, Print, Escape;
    var p := pairs[0];
    var tail := if |pairs| == 1 then "" else ":" + Print(pairs[1..]);
    PrintFirst(pairs);
    ScanEscaped(p.name, "=" + Escape(p.value) + tail, true, "", "");
    assert "" + p.name == p.name;
    ScanEnd(p.name, p.value);
    ScanEquals(p.name, p.value, tail);
    if |pairs| > 1 { ScanColon(p.name, p.value, pairs[1..]); }
  }

  /** Without the limit of the buffers: printing and scanning gives the list back exactly when no value
      begins with '=' and no name after the first begins with ':'. */
  lemma {:induction false} ScanPrintExactly(pairs: seq<Pair>)
    requires pairs != []
    ensures Scan(Print(pairs), true, "", "") == Tokens(pairs, true) && AllShort(pairs) <==> Unambiguous(pairs)
    decreases |pairs|
  {
    hide Print, Scan, Short;
    ScanFirst(pairs);
    if |pairs| > 1 {
      ScanPrintExactly(pairs[1..]);
      assert pairs == [pairs[0]] + pairs[1..];
      assert AllShort(pairs) <==> Short(pairs[0]) && AllShort(pairs[1..]) by {
        assert forall k :: 0 <= k < |pairs| - 1 ==> pairs[1..][k] == pairs[k + 1];
      }
    } else {
      assert pairs == [pairs[0]];
    }
  }

  lemma TooLongWhole(pairs: seq<Pair>)
    ensures TooLong(Tokens(pairs, true)) <==> !AllShort(pairs)
  {
    if !AllShort(pairs) {
      var k: nat :| k < |pairs| && !Short(pairs[k]);
      assert Overruns(Tokens(pairs, true), k);
    }
  }

  /** Printing and parsing gives a non-empty list back exactly when it is unambiguous. */
  lemma RoundTripExactly(pairs: seq<Pair>)
    requires pairs != []
    ensures Parse(Print(pairs)) == Ok(pairs) <==> Unambiguous(pairs)
  {
    hide Print, Scan, Short, Unambiguous, TooLong, AllShort;
    ScanPrintExactly(pairs);
    TooLongWhole(pairs);
  }

  lemma WitnessPrinted()
    ensures Print([Pair("a", "=b")]) == "a===b"
  {
    assert Escape("b") == "b" + Escape("");
    assert "=b"[1..] == "b";
    assert Escape("=b") == "==" + Escape("b");
    assert Escape("a") == "a" + Escape("");
  }

  /** The documented escaping does not always read back: one pair whose value begins with '='. */
  lemma RoundTripFails()
    ensures Print([Pair("a", "=b")]) == "a===b"
    ensures Parse("a===b") == Ok([Pair("a=", "b")])
  {
    hide Print, Escape, TooLong;
    WitnessPrinted();
    ScanChar("a===b", "===b", 'a', true, "", "");
    ScanChar("===b", "=b", '=', true, "a", "");
    assert "" + "a" == "a" && "a" + ['='] == "a=";
    assert "=b"[1..] == "b";
    ScanChar("b", "", 'b', false, "a=", "");
    assert "" + ['b'] == "b" && "" + ['a'] == "a";
    assert Scan("=b", true, "a=", "") == Scan("b", false, "a=", "");
    TooLongWhole([Pair("a=", "b")]);
  }

  /** A pair as it may stand in a string: without '=' only if its value is empty. */
  function PrintOne(p: Pair, equals: bool): string {
    Escape(p.name) + (if equals then "=" + Escape(p.value) else "")
  }

  /** s is these pairs, escaped, with lone colons between them and a lone '=' in those that `equals` names. */
  predicate Writes(s: string, pairs: seq<Pair>, equals: seq<bool>)
    requires |pairs| == |equals| > 0
  {
    && (!equals[0] ==> pairs[0].value == "")
    && if |pairs| == 1 then s == PrintOne(pairs[0], equals[0])
       else
         var first := PrintOne(pairs[0], equals[0]) + ":";
         first <= s && Writes(s[|first|..], pairs[1..], equals[1..])
  }

  lemma EscapeFirst(c: char, t: string)
    ensures Escape([c] + t) == (if c == '=' || c == ':' then [c, c] else [c]) + Escape(t)
  {
    assert ([c] + t)[1..] == t;
  }

  lemma {:induction false} EscapeLast(t: string, c: char)
    ensures Escape(t + [c]) == Escape(t) + (if c == '=' || c == ':' then [c, c] else [c])
  {
    hide Escape;
    EscapeNone();
    if t == "" {
      assert t + [c] == [c] + t;
      EscapeFirst(c, t);
    } else {
      EscapeLast(t[1..], c);
      assert t + [c] == [t[0]] + (t[1..] + [c]);
      EscapeFirst(t[0], t[1..] + [c]);
      EscapeFirst(t[0], t[1..]);
      assert t == [t[0]] + t[1..];
    }
  }

  /** The text of the pair being scanned. */
  function Head(inName: bool, name: string, value: string): string {
    PrintOne(Pair(name, value), !inName)
  }

  lemma HeadChar(c: char, inName: bool, name: string, value: string, text: string)
    ensures var written := if c == '=' || c == ':' then [c, c] else [c];
      Head(inName, if inName then name + [c] else name, if inName then value else value + [c]) + text
      == Head(inName, name, value) + (written + text)
  {
    hide Escape;
    EscapeLast(name, c);
    EscapeLast(value, c);
  }

  lemma WritesFirst(s: string, text: string, p: Pair, equals: bool, pairs: seq<Pair>, more: seq<bool>)
    requires |pairs| == |more| > 0 && Writes(text, pairs, more) && (!equals ==> p.value == "")
    requires s == PrintOne(p, equals) + (":" + text)
    ensures Writes(s, [p] + pairs, [equals] + more)
  {
    hide PrintOne;
    var first := PrintOne(p, equals) + ":";
    assert s == first + text && s[|first|..] == text;
    assert ([p] + pairs)[1..] == pairs && ([equals] + more)[1..] == more;
  }

  lemma WritesLast(s: string, p: Pair, equals: bool)
    requires s == PrintOne(p, equals) && (!equals ==> p.value == "")
    ensures Writes(s, [p], [equals])
  {
  }

  /** Of s, which follows `head`, the scanner reads `text`: all of it, or up to the lone '=' that stops it. */
  predicate ReadAs(r: Tokens, head: string, s: string, text: string, equals: seq<bool>) {
    && |equals| == |r.pairs| > 0 && Writes(head + text, r.pairs, equals)
    && if r.valid then text == s else equals[|equals| - 1] && text + "=" <= s
  }

  lemma ReadEnd(inName: bool, name: string, value: string)
    requires inName ==> value == ""
    ensures ReadAs(Scan("", inName, name, value), Head(inName, name, value), "", "", [!inName])
  {
    hide Escape, Writes, PrintOne;
    assert Head(inName, name, value) + "" == Head(inName, name, value);
    WritesLast(Head(inName, name, value), Pair(name, value), !inName);
  }

  lemma ReadStop(s: string, name: string, value: string)
    requires s != "" && s[0] == '=' && !(|s| > 1 && s[1] == '=')
    ensures ReadAs(Scan(s, false, name, value), Head(false, name, value), s, "", [true])
  {
    hide Escape, Writes, PrintOne;
    assert Head(false, name, value) + "" == Head(false, name, value);
    WritesLast(Head(false, name, value), Pair(name, value), true);
    assert "" + "=" == "=" && s == "=" + s[1..];
  }

  lemma ReadMore(r: Tokens, head: string, s: string, text: string, equals: seq<bool>, head': string, c: string)
    requires ReadAs(r, head, s, text, equals) && head + text == head' + (c + text)
    ensures ReadAs(r, head', c + s, c + text, equals)
  {
    hide Writes;
    ConcatAssoc(c, text, "=");
    if !r.valid { assert s == text + "=" + s[|text| + 1..]; }
    assert !r.valid ==> c + s == c + text + "=" + s[|text| + 1..];
  }

  lemma ReadColon(s: string, inName: bool, name: string, value: string, text: string, equals: seq<bool>)
    requires s != "" && s[0] == ':' && !(|s| > 1 && s[1] == ':') && (inName ==> value == "")
    requires ReadAs(Scan(s[1..], true, "", ""), "", s[1..], text, equals)
    ensures ReadAs(Scan(s, inName, name, value), Head(inName, name, value), s, ":" + text, [!inName] + equals)
  {
    hide Escape, Writes, PrintOne;
    assert s == ":" + s[1..] && "" + text == text;
    var head, r := Head(inName, name, value) + (":" + text), Scan(s[1..], true, "", "");
    WritesFirst(head, text, Pair(name, value), !inName, r.pairs, equals);
    if !r.valid { assert s == ":" + text + "=" + s[1..][|text| + 1..]; }
  }

  /** What the scanner reads of a string. */
  lemma {:induction false} ReadWrites(s: string, inName: bool, name: string, value: string)
      returns (text: string, equals: seq<bool>)
    requires inName ==> value == ""
    ensures ReadAs(Scan(s, inName, name, value), Head(inName, name, value), s, text, equals)
    decreases |s|
  {
    hide Escape, Writes, PrintOne, Head, ReadAs;
    if s == "" {
      text, equals := "", [!inName];
      ReadEnd(inName, name, value);
    } else if s[0] == '=' && !(|s| > 1 && s[1] == '=') {
      if inName {
        text, equals := ReadWrites(s[1..], false, name, value);
        HeadOpens(name, text);
        assert s == "=" + s[1..];
        var r := Scan(s[1..], false, name, value);
        ReadMore(r, Head(false, name, value), s[1..], text, equals, Head(true, name, value), "=");
        text := "=" + text;
      } else {
        text, equals := "", [true];
        ReadStop(s, name, value);
      }
    } else if s[0] == ':' && !(|s| > 1 && s[1] == ':') {
      text, equals := ReadWrites(s[1..], true, "", "");
      HeadNone();
      ReadColon(s, inName, name, value, text, equals);
      text, equals := ":" + text, [!inName] + equals;
    } else {
      var c := if s[0] == '=' || s[0] == ':' then [s[0], s[0]] else [s[0]];
      var rest := s[|c|..];
      assert s == c + rest;
      var name', value' := if inName then name + [s[0]] else name, if inName then value else value + [s[0]];
      text, equals := ReadWrites(rest, inName, name', value');
      HeadChar(s[0], inName, name, value, text);
      var r, head := Scan(rest, inName, name', value'), Head(inName, name', value');
      ReadMore(r, head, rest, text, equals, Head(inName, name, value), c);
      text := c + text;
    }
  }

  lemma HeadNone()
    ensures Head(true, "", "") == ""
  {
  }

  lemma HeadOpens(name: string, text: string)
    ensures Head(false, name, "") + text == Head(true, name, "") + ("=" + text)
  {
  }

  /** Every string that is accepted is its pairs, escaped, with '=' and ':' between them; of one that is
      refused the part before the '=' that stops the scanner is. */
  lemma AcceptedIsWritten(s: string)
    ensures Parse(s).Ok? ==> exists equals: seq<bool> ::
      |equals| == |Parse(s).pairs| > 0 && Writes(s, Parse(s).pairs, equals)
    ensures Parse(s).Invalid? ==> exists text, pairs: seq<Pair>, equals: seq<bool> ::
      && |equals| == |pairs| > 0 && Writes(text, pairs, equals) && equals[|equals| - 1] && text + "=" <= s
  {
    hide Scan, Writes, Head, TooLong;
    var text, equals := ReadWrites(s, true, "", "");
    HeadNone();
    assert "" + text == text;
  }

  // ---------------------------------------------------------------- the buffers

  function Repeated(c: char, n: nat): string {
    if n == 0 then "" else [c] + Repeated(c, n - 1)
  }

  lemma {:induction false} ScanRepeated(n: nat, name: string)
    ensures Scan(Repeated('a', n), true, name, "") == Tokens([Pair(name + Repeated('a', n), "")], true)
    ensures |Repeated('a', n)| == n
  {
    if n == 0 {
      assert name + "" == name;
    } else {
      ScanRepeated(n - 1, name + "a");
      ScanChar(Repeated('a', n), Repeated('a', n - 1), 'a', true, name, "");
      assert name + Repeated('a', n) == name + "a" + Repeated('a', n - 1);
    }
  }

  /** A name of n letters on its own runs past its buffer exactly when there are 258 of them or more. */
  lemma OverlongWitness(n: nat)
    ensures Parse(Repeated('a', n)).Overlong? <==> n >= 258
  {
    hide Scan, TooLong, Repeated;
    ScanRepeated(n, "");
    assert "" + Repeated('a', n) == Repeated('a', n);
    assert [Pair(Repeated('a', n), "")][0] == Pair(Repeated('a', n), "");
    TooLongWhole([Pair(Repeated('a', n), "")]);
  }

  /** A token is never longer than the text it is read from. */
  lemma {:induction false} TokensFit(s: string, inName: bool, name: string, value: string, k: nat)
    requires k < |Scan(s, inName, name, value).pairs|
    ensures var p := Scan(s, inName, name, value).pairs[k];
      |p.name| <= |name| + |s| && |p.value| <= |value| + |s|
    decreases |s|
  {
    if s != "" {
      if s[0] == '=' && !(|s| > 1 && s[1] == '=') {
        if inName { TokensFit(s[1..], false, name, value, k); }
      } else if s[0] == ':' && !(|s| > 1 && s[1] == ':') {
        if k > 0 { TokensFit(s[1..], true, "", "", k - 1); }
      } else {
        var rest := if s[0] == '=' || s[0] == ':' then s[2..] else s[1..];
        if inName {
          TokensFit(rest, true, name + [s[0]], value, k);
        } else {
          TokensFit(rest, false, name, value + [s[0]], k);
        }
      }
    }
  }

  /** A string that fits the buffers as a whole is parsed inside them. */
  lemma ShortStringsSafe(s: string)
    requires |s| <= LONGEST
    ensures !Parse(s).Overlong?
  {
    hide Scan;
    var r := Scan(s, true, "", "");
    forall k: nat | k < |r.pairs| ensures !Overruns(r, k) {
      TokensFit(s, true, "", "", k);
    }
  }

  // ---------------------------------------------------------------- separators

  /** Length of the run of colons at the head of s. */
  function ColonRun(s: string): (n: nat)
    ensures n <= |s|
  {
    if s == "" || s[0] != ':' then 0 else 1 + ColonRun(s[1..])
  }

  /** Unescaped colons: one for every maximal run of odd length. */
  function Separators(s: string): nat
    decreases |s|
  {
    if s == "" then 0
    else if s[0] != ':' then Separators(s[1..])
    else ColonRun(s) % 2 + Separators(s[ColonRun(s)..])
  }

  lemma RunTwice(s: string)
    requires |s| > 1 && s[0] == ':' && s[1] == ':'
    ensures ColonRun(s) == 2 + ColonRun(s[2..])
  {
    assert s[1..][1..] == s[2..];
  }

  lemma SeparatorsRun(s: string)
    ensures Separators(s) == ColonRun(s) % 2 + Separators(s[ColonRun(s)..])
  {
    if s == "" || s[0] != ':' { assert s[0..] == s; }
  }

  lemma SeparatorsEscape(s: string)
    requires |s| > 1 && s[0] == ':' && s[1] == ':'
    ensures Separators(s) == Separators(s[2..])
  {
    hide Separators, ColonRun;
    var t := s[2..];
    RunTwice(s);
    assert s[ColonRun(s)..] == t[ColonRun(t)..];
    SeparatorsRun(s);
    SeparatorsRun(t);
  }

  /** A successful parse yields one more entry than there are unescaped colons. */
  lemma {:induction false} EntriesAreSeparators(s: string, inName: bool, name: string, value: string)
    requires Scan(s, inName, name, value).valid
    ensures |Scan(s, inName, name, value).pairs| == 1 + Separators(s)
    decreases |s|
  {
    if s != "" {
      if s[0] == '=' && !(|s| > 1 && s[1] == '=') {
        EntriesAreSeparators(s[1..], false, name, value);
      } else if s[0] == ':' && !(|s| > 1 && s[1] == ':') {
        EntriesAreSeparators(s[1..], true, "", "");
        assert ColonRun(s) == 1;
      } else {
        var rest := if s[0] == '=' || s[0] == ':' then s[2..] else s[1..];
        if s[0] == ':' { SeparatorsEscape(s); }
        if s[0] == '=' { assert s[1..][1..] == s[2..]; }
        if inName {
          EntriesAreSeparators(rest, true, name + [s[0]], value);
        } else {
          EntriesAreSeparators(rest, false, name, value + [s[0]]);
        }
      }
    }
  }
}
