/**
  The chunked transfer loops that read a device's data over IrDA, in the driver plugin (with progress
  reports and cancellation) and in the daemon.
 */
module DeviceTransfer {
  import opened Words

  /** How the bytes of the device arrive at successive reads: up to n of them, a timeout, an error. */
  datatype Arrival = Bytes(n: nat) | TimedOut | Failed

  /** Result of a transfer.  The last two are not results of the source: Waiting means that no further read
      has returned yet, InvalidFree that the daemon frees the address of its caller's pointer. */
  datatype Code = Done | NothingToRead | LengthMismatch | DeviceError | TransferTimedOut | ReadError | Cancelled
                | Waiting | InvalidFree

  function Min(a: nat, b: nat): nat {
    if a < b then a else b
  }

  /** The chunk size a device is given. */
  function ClampChunk(n: nat): (csize: nat)
    ensures 2 <= csize <= 32
    ensures 2 <= n <= 32 ==> csize == n
  {
    if n < 2 then 2 else if n > 32 then 32 else n
  }

  // ---------------------------------------------------------------- the loop as a function

  /** What the loop did: how it ended, the chunk each read brought, the position after each read. */
  datatype Run = Run(code: Code, chunks: seq<seq<Byte>>, reports: seq<nat>)

  /** `len` bytes still to read, `pos` read.  Progress report number k is answered by cancel(k). */
  function Receive(incoming: seq<Byte>, arrivals: seq<Arrival>, csize: nat, len: nat, pos: nat,
                   cancel: nat -> bool, k: nat): Run
    decreases |arrivals|
  {
    if len == 0 then Run(Done, [], [])
    else if arrivals == [] then Run(Waiting, [], [])
    else match arrivals[0]
      case TimedOut => Run(TransferTimedOut, [], [])
      case Failed => Run(ReadError, [], [])
      case Bytes(n) =>
        var m := Min(n, Min(Min(csize, len), |incoming|));
        if cancel(k) then Run(Cancelled, [incoming[..m]], [pos + m])
        else
          var rest := Receive(incoming[m..], arrivals[1..], csize, len - m, pos + m, cancel, k + 1);
          Run(rest.code, [incoming[..m]] + rest.chunks, [pos + m] + rest.reports)
  }

  function Join(chunks: seq<seq<Byte>>): seq<Byte> {
    if chunks == [] then [] else chunks[0] + Join(chunks[1..])
  }

  // ---------------------------------------------------------------- the device

  datatype ReadResult = Got(n: nat) | ReadTimedOut | ReadFailed | NoReadYet

  class Irda {
    var incoming: seq<Byte>
    var arrivals: seq<Arrival>

    constructor (incoming: seq<Byte>, arrivals: seq<Arrival>)
      ensures this.incoming == incoming && this.arrivals == arrivals
    {
      this.incoming := incoming;
      this.arrivals := arrivals;
    }

    /** irda_socket_read into buffer[pos..]. */
    method Read(buffer: array<Byte>, pos: nat, size: nat) returns (r: ReadResult)
      requires pos + size <= buffer.Length
      modifies this, buffer
      ensures match r
        case NoReadYet => old(arrivals) == []
        case ReadTimedOut => old(arrivals) != [] && old(arrivals)[0].TimedOut?
        case ReadFailed => old(arrivals) != [] && old(arrivals)[0].Failed?
        case Got(m) =>
          && old(arrivals) != [] && old(arrivals)[0].Bytes?
          && m == Min(old(arrivals)[0].n, Min(size, |old(incoming)|))
          && buffer[pos..pos + m] == old(incoming)[..m]
          && incoming == old(incoming)[m..] && arrivals == old(arrivals)[1..]
      ensures buffer[..pos] == old(buffer[..pos])
    {
      if arrivals == [] { return NoReadYet; }
      var a := arrivals[0];
      arrivals := arrivals[1..];
      match a {
        case TimedOut => return ReadTimedOut;
        case Failed => return ReadFailed;
        case Bytes(n) =>
          var m := Min(n, Min(size, |incoming|));
          var data := incoming[..m];
          forall i | 0 <= i < m { buffer[pos + i] := data[i]; }
          incoming := incoming[m..];
          return Got(m);
      }
    }
  }

  // ---------------------------------------------------------------- laws of the loop

  /** The chunks are the device's bytes in order and never too many; all of them have been read exactly
      when the loop is done, or was cancelled at its very last report. */
  ghost predicate InOrder(incoming: seq<Byte>, len: nat, run: Run) {
    && |Join(run.chunks)| <= len && Join(run.chunks) <= incoming
    && (run.code.Done? ==> |Join(run.chunks)| == len)
    && (|Join(run.chunks)| == len ==> run.code.Done? || run.code.Cancelled?)
  }

  lemma InOrderFirst(incoming: seq<Byte>, len: nat, m: nat, rest: Run, reports: seq<nat>)
    requires m <= len && m <= |incoming| && InOrder(incoming[m..], len - m, rest)
    ensures InOrder(incoming, len, Run(rest.code, [incoming[..m]] + rest.chunks, reports))
  {
    JoinFirst(incoming[..m], rest.chunks);
    hide Join;
    PrefixJoin(incoming, m, Join(rest.chunks));
  }

  lemma InOrderEmpty(incoming: seq<Byte>, len: nat, code: Code)
    requires if len == 0 then code.Done? || code.Cancelled? else !code.Done?
    ensures InOrder(incoming, len, Run(code, [], []))
  {
  }

  lemma {:induction false} ChunksInOrder(incoming: seq<Byte>, arrivals: seq<Arrival>, csize: nat, len: nat, pos: nat,
                                         cancel: nat -> bool, k: nat)
    ensures InOrder(incoming, len, Receive(incoming, arrivals, csize, len, pos, cancel, k))
    decreases |arrivals|
  {
    hide InOrder;
    if len > 0 && arrivals != [] && arrivals[0].Bytes? {
      var m := Min(arrivals[0].n, Min(Min(csize, len), |incoming|));
      if cancel(k) {
        InOrderEmpty(incoming[m..], len - m, Cancelled);
        InOrderFirst(incoming, len, m, Run(Cancelled, [], []), [pos + m]);
        assert [incoming[..m]] + [] == [incoming[..m]];
      } else {
        ChunksInOrder(incoming[m..], arrivals[1..], csize, len - m, pos + m, cancel, k + 1);
        var rest := Receive(incoming[m..], arrivals[1..], csize, len - m, pos + m, cancel, k + 1);
        InOrderFirst(incoming, len, m, rest, [pos + m] + rest.reports);
      }
    } else {
      InOrderEmpty(incoming, len, Receive(incoming, arrivals, csize, len, pos, cancel, k).code);
    }
  }

  lemma JoinFirst(c: seq<Byte>, rest: seq<seq<Byte>>)
    ensures Join([c] + rest) == c + Join(rest)
  {
    assert ([c] + rest)[1..] == rest;
  }

  lemma PrefixJoin(s: seq<Byte>, m: nat, t: seq<Byte>)
    requires m <= |s| && t <= s[m..]
    ensures s[..m] + t <= s
  {
    assert s == s[..m] + s[m..];
  }

  /** A finished transfer delivers exactly the first `len` bytes of the device, so the result does not
      depend on the chunk size, on how reads were split, or on progress callbacks. */
  lemma TransferIndependent(incoming: seq<Byte>, len: nat, a1: seq<Arrival>, c1: nat, f1: nat -> bool,
                            a2: seq<Arrival>, c2: nat, f2: nat -> bool)
    requires Receive(incoming, a1, c1, len, 0, f1, 1).code.Done?
    requires Receive(incoming, a2, c2, len, 0, f2, 1).code.Done?
    ensures len <= |incoming|
    ensures Join(Receive(incoming, a1, c1, len, 0, f1, 1).chunks) == incoming[..len]
    ensures Join(Receive(incoming, a2, c2, len, 0, f2, 1).chunks) == incoming[..len]
  {
    ChunksInOrder(incoming, a1, c1, len, 0, f1, 1);
    ChunksInOrder(incoming, a2, c2, len, 0, f2, 1);
  }

  /** As long as every read brings at least one byte, `len` reads are enough. */
  lemma {:induction false} TransferCompletes(incoming: seq<Byte>, arrivals: seq<Arrival>, csize: nat, len: nat,
                                             pos: nat, cancel: nat -> bool, k: nat)
    requires len <= |incoming| && csize >= 1 && len <= |arrivals|
    requires forall i :: 0 <= i < |arrivals| ==> arrivals[i].Bytes? && arrivals[i].n >= 1
    requires forall i :: i >= k ==> !cancel(i)
    ensures Receive(incoming, arrivals, csize, len, pos, cancel, k).code.Done?
    decreases |arrivals|
  {
    if len > 0 {
      var m := Min(arrivals[0].n, Min(Min(csize, len), |incoming|));
      assert arrivals[0].n >= 1;
      TransferCompletes(incoming[m..], arrivals[1..], csize, len - m, pos + m, cancel, k + 1);
    }
  }

  /** The daemon has no progress callback. */
  function Never(k: nat): bool {
    false
  }

  /** No read brings more than a chunk. */
  lemma {:induction false} ChunksSmall(incoming: seq<Byte>, arrivals: seq<Arrival>, csize: nat, len: nat, pos: nat,
                                       cancel: nat -> bool, k: nat)
    ensures forall c :: c in Receive(incoming, arrivals, csize, len, pos, cancel, k).chunks ==> |c| <= csize
    decreases |arrivals|
  {
    if len > 0 && arrivals != [] && arrivals[0].Bytes? && !cancel(k) {
      var m := Min(arrivals[0].n, Min(Min(csize, len), |incoming|));
      ChunksSmall(incoming[m..], arrivals[1..], csize, len - m, pos + m, cancel, k + 1);
    }
  }

  /** With the chunk size the daemon gives a device, whatever was asked for: as long as every read brings a
      byte, `len` reads deliver the first `len` bytes, in pieces of at most 32. */
  lemma ClampedCompletes(incoming: seq<Byte>, arrivals: seq<Arrival>, requested: nat, len: nat)
    requires len <= |incoming| && len <= |arrivals|
    requires forall i :: 0 <= i < |arrivals| ==> arrivals[i].Bytes? && arrivals[i].n >= 1
    ensures var run := Receive(incoming, arrivals, ClampChunk(requested), len, 0, Never, 1);
      && run.code.Done? && Join(run.chunks) == incoming[..len]
      && forall c :: c in run.chunks ==> |c| <= 32
  {
    hide Receive, Join, ClampChunk;
    var csize := ClampChunk(requested);
    TransferCompletes(incoming, arrivals, csize, len, 0, Never, 1);
    ChunksInOrder(incoming, arrivals, csize, len, 0, Never, 1);
    ChunksSmall(incoming, arrivals, csize, len, 0, Never, 1);
  }

  // ---------------------------------------------------------------- how the loop ends, by its inputs

  /** What the reads offer to a loop that asks for at most csize bytes at a time. */
  function Sum(arrivals: seq<Arrival>, csize: nat): nat {
    if arrivals == [] then 0
    else (if arrivals[0].Bytes? then Min(arrivals[0].n, csize) else 0) + Sum(arrivals[1..], csize)
  }

  /** The first j reads bring bytes and are not cancelled. */
  predicate Quiet(arrivals: seq<Arrival>, cancel: nat -> bool, k: nat, j: nat): (r: bool)
    ensures r ==> j <= |arrivals|
    decreases j
  {
    j == 0 || (arrivals != [] && arrivals[0].Bytes? && !cancel(k) && Quiet(arrivals[1..], cancel, k + 1, j - 1))
  }

  /** After j reads bytes are still missing, so that the loop reads again. */
  predicate GoesOn(incoming: seq<Byte>, arrivals: seq<Arrival>, csize: nat, len: nat, cancel: nat -> bool, k: nat, j: nat) {
    Quiet(arrivals, cancel, k, j) && Min(|incoming|, Sum(arrivals[..j], csize)) < len
  }

  /** What makes the loop end with a code at the read with index j. */
  predicate EndsAt(code: Code, incoming: seq<Byte>, arrivals: seq<Arrival>, csize: nat, len: nat, cancel: nat -> bool,
                   k: nat, j: nat)
  {
    match code
    case Done => Quiet(arrivals, cancel, k, j) && Min(|incoming|, Sum(arrivals[..j], csize)) >= len
    case Waiting => GoesOn(incoming, arrivals, csize, len, cancel, k, j) && j == |arrivals|
    case TransferTimedOut => GoesOn(incoming, arrivals, csize, len, cancel, k, j) && j < |arrivals| && arrivals[j].TimedOut?
    case ReadError => GoesOn(incoming, arrivals, csize, len, cancel, k, j) && j < |arrivals| && arrivals[j].Failed?
    case Cancelled =>
      GoesOn(incoming, arrivals, csize, len, cancel, k, j) && j < |arrivals| && arrivals[j].Bytes? && cancel(k + j)
    case _ => false
  }

  predicate Ends(code: Code, incoming: seq<Byte>, arrivals: seq<Arrival>, csize: nat, len: nat, cancel: nat -> bool,
                 k: nat)
  {
    exists j: nat :: j <= |arrivals| && EndsAt(code, incoming, arrivals, csize, len, cancel, k, j)
  }

  lemma MissingShift(n: nat, csize: nat, len: nat, available: nat, rest: nat)
    ensures var m := Min(n, Min(Min(csize, len), available));
      m <= len && m <= available &&
      (Min(available, Min(n, csize) + rest) < len <==> m < len && Min(available - m, rest) < len - m)
  {
  }

  /** After a read that brings bytes the loop stands as if it had started there. */
  lemma EndsShift(code: Code, incoming: seq<Byte>, arrivals: seq<Arrival>, csize: nat, len: nat, cancel: nat -> bool,
                  k: nat, j: nat)
    requires arrivals != [] && arrivals[0].Bytes? && !cancel(k) && len > 0
    ensures var m := Min(arrivals[0].n, Min(Min(csize, len), |incoming|));
      && m <= len && m <= |incoming|
      && (GoesOn(incoming, arrivals, csize, len, cancel, k, j + 1) <==>
          GoesOn(incoming[m..], arrivals[1..], csize, len - m, cancel, k + 1, j))
      && (EndsAt(code, incoming, arrivals, csize, len, cancel, k, j + 1) <==>
          EndsAt(code, incoming[m..], arrivals[1..], csize, len - m, cancel, k + 1, j))
  {
    var m := Min(arrivals[0].n, Min(Min(csize, len), |incoming|));
    if j + 1 <= |arrivals| {
      var rest := arrivals[1..][..j];
      assert arrivals[..j + 1][0] == arrivals[0] && arrivals[..j + 1][1..] == rest;
      MissingShift(arrivals[0].n, csize, len, |incoming|, Sum(rest, csize));
    } else {
      MissingShift(arrivals[0].n, csize, len, |incoming|, 0);
    }
    hide Min;
  }

  /** How a loop that does not get past its first read ends. */
  lemma EndsFirst(code: Code, incoming: seq<Byte>, arrivals: seq<Arrival>, csize: nat, len: nat, pos: nat,
                  cancel: nat -> bool, k: nat)
    requires len == 0 || arrivals == [] || !arrivals[0].Bytes? || cancel(k)
    ensures Receive(incoming, arrivals, csize, len, pos, cancel, k).code == code <==>
      EndsAt(code, incoming, arrivals, csize, len, cancel, k, 0)
    ensures forall j: nat :: EndsAt(code, incoming, arrivals, csize, len, cancel, k, j) ==>
      EndsAt(code, incoming, arrivals, csize, len, cancel, k, 0)
  {
    assert arrivals[..0] == [] && k + 0 == k;
  }

  /** The loop ends with a code exactly when some read makes it do so: a condition on what the reads offer, on
      the callbacks and on the sizes alone. */
  lemma {:induction false} CodeExactly(code: Code, incoming: seq<Byte>, arrivals: seq<Arrival>, csize: nat, len: nat,
                                       pos: nat, cancel: nat -> bool, k: nat)
    ensures Receive(incoming, arrivals, csize, len, pos, cancel, k).code == code <==>
      Ends(code, incoming, arrivals, csize, len, cancel, k)
    decreases |arrivals|
  {
    hide EndsAt;
    if len == 0 || arrivals == [] || !arrivals[0].Bytes? || cancel(k) {
      EndsFirst(code, incoming, arrivals, csize, len, pos, cancel, k);
    } else {
      var m := Min(arrivals[0].n, Min(Min(csize, len), |incoming|));
      EndsShift(code, incoming, arrivals, csize, len, cancel, k, 0);
      var incoming', arrivals', len', k' := incoming[m..], arrivals[1..], len - m, k + 1;
      CodeExactly(code, incoming', arrivals', csize, len', pos + m, cancel, k');
      NotAtStart(code, incoming, arrivals, csize, len, cancel, k);
      if Ends(code, incoming, arrivals, csize, len, cancel, k) {
        var j: nat :| j <= |arrivals| && EndsAt(code, incoming, arrivals, csize, len, cancel, k, j);
        EndsShift(code, incoming, arrivals, csize, len, cancel, k, j - 1);
        assert EndsAt(code, incoming', arrivals', csize, len', cancel, k', j - 1);
      }
      if Ends(code, incoming', arrivals', csize, len', cancel, k') {
        var j: nat :| j <= |arrivals'| && EndsAt(code, incoming', arrivals', csize, len', cancel, k', j);
        EndsShift(code, incoming, arrivals, csize, len, cancel, k, j);
        assert EndsAt(code, incoming, arrivals, csize, len, cancel, k, j + 1);
      }
    }
    hide Min;
  }

  lemma NotAtStart(code: Code, incoming: seq<Byte>, arrivals: seq<Arrival>, csize: nat, len: nat, cancel: nat -> bool,
                   k: nat)
    requires len > 0 && arrivals != [] && arrivals[0].Bytes? && !cancel(k)
    ensures !EndsAt(code, incoming, arrivals, csize, len, cancel, k, 0)
  {
  }

  /** A read breaks the daemon's loop: it fails or times out while bytes are missing. */
  predicate BreaksAt(incoming: seq<Byte>, arrivals: seq<Arrival>, csize: nat, len: nat, j: nat) {
    GoesOn(incoming, arrivals, csize, len, Never, 1, j) && j < |arrivals| && !arrivals[j].Bytes?
  }

  predicate Breaks(incoming: seq<Byte>, arrivals: seq<Arrival>, csize: nat, len: nat) {
    exists j: nat :: j < |arrivals| && BreaksAt(incoming, arrivals, csize, len, j)
  }

  lemma BreaksExactly(incoming: seq<Byte>, arrivals: seq<Arrival>, csize: nat, len: nat)
    ensures var code := Receive(incoming, arrivals, csize, len, 0, Never, 1).code;
      && (code.ReadError? || code.TransferTimedOut? <==> Breaks(incoming, arrivals, csize, len))
      && !code.InvalidFree?
  {
    hide Receive, GoesOn;
    var code := Receive(incoming, arrivals, csize, len, 0, Never, 1).code;
    CodeExactly(code, incoming, arrivals, csize, len, 0, Never, 1);
    if code.ReadError? || code.TransferTimedOut? {
      var j: nat :| EndsAt(code, incoming, arrivals, csize, len, Never, 1, j);
      assert EndsAt(if code.ReadError? then ReadError else TransferTimedOut, incoming, arrivals, csize, len, Never, 1, j);
      assert BreaksAt(incoming, arrivals, csize, len, j);
    }
    if Breaks(incoming, arrivals, csize, len) {
      var j: nat :| j < |arrivals| && BreaksAt(incoming, arrivals, csize, len, j);
      var broken := if arrivals[j].Failed? then ReadError else TransferTimedOut;
      CodeExactly(broken, incoming, arrivals, csize, len, 0, Never, 1);
      assert EndsAt(broken, incoming, arrivals, csize, len, Never, 1, j);
    }
  }

  /** The first read of a transfer that is due at least one byte fails. */
  lemma BreakWitness(incoming: seq<Byte>, csize: nat, len: nat)
    requires len > 0
    ensures Receive(incoming, [Failed], csize, len, 0, Never, 1) == Run(ReadError, [], [])
    ensures BreaksAt(incoming, [Failed], csize, len, 0) && Breaks(incoming, [Failed], csize, len)
  {
    assert [Failed][..0] == [];
    BreaksFrom(incoming, [Failed], csize, len, 0);
  }

  lemma BreaksFrom(incoming: seq<Byte>, arrivals: seq<Arrival>, csize: nat, len: nat, j: nat)
    requires j < |arrivals| && BreaksAt(incoming, arrivals, csize, len, j)
    ensures Breaks(incoming, arrivals, csize, len)
  {
    hide BreaksAt;
  }

  predicate StrictlyIncreasing(s: seq<nat>) {
    forall i, j :: 0 <= i < j < |s| ==> s[i] < s[j]
  }

  predicate NoEmptyChunk(chunks: seq<seq<Byte>>) {
    forall i :: 0 <= i < |chunks| ==> chunks[i] != []
  }

  /** Progress: the reports after `pos` stay between pos and pos + len, end at pos + len when the loop is
      done, and increase strictly exactly when no read came back empty. */
  ghost predicate Progress(pos: nat, len: nat, run: Run) {
    && |run.reports| == |run.chunks|
    && (forall i :: 0 <= i < |run.reports| ==> pos <= run.reports[i] <= pos + len)
    && (run.code.Done? ==> ([pos] + run.reports)[|run.reports|] == pos + len)
    && (StrictlyIncreasing([pos] + run.reports) <==> NoEmptyChunk(run.chunks))
  }

  lemma ProgressFirst(c: seq<Byte>, pos: nat, len: nat, rest: Run)
    requires |c| <= len && Progress(pos + |c|, len - |c|, rest)
    ensures Progress(pos, len, Run(rest.code, [c] + rest.chunks, [pos + |c|] + rest.reports))
  {
    IncreasingFirst(pos, pos + |c|, rest.reports);
    NoEmptyFirst(c, rest.chunks);
    hide StrictlyIncreasing, NoEmptyChunk;
  }

  lemma ProgressLast(c: seq<Byte>, pos: nat, len: nat)
    requires |c| <= len
    ensures Progress(pos, len, Run(Cancelled, [c], [pos + |c|]))
  {
    TwoReports(pos, c);
    hide StrictlyIncreasing, NoEmptyChunk;
  }

  lemma ProgressNone(pos: nat, len: nat, code: Code)
    requires code.Done? ==> len == 0
    ensures Progress(pos, len, Run(code, [], []))
  {
    assert [pos] + [] == [pos];
  }

  lemma {:induction false} ReportsIncrease(incoming: seq<Byte>, arrivals: seq<Arrival>, csize: nat, len: nat, pos: nat,
                                           cancel: nat -> bool, k: nat)
    ensures Progress(pos, len, Receive(incoming, arrivals, csize, len, pos, cancel, k))
    decreases |arrivals|
  {
    hide Progress, Min;
    if len > 0 && arrivals != [] && arrivals[0].Bytes? {
      var m := Min(arrivals[0].n, Min(Min(csize, len), |incoming|));
      MinBounds(arrivals[0].n, csize, len, |incoming|);
      if cancel(k) {
        ProgressLast(incoming[..m], pos, len);
      } else {
        ReportsIncrease(incoming[m..], arrivals[1..], csize, len - m, pos + m, cancel, k + 1);
        var rest := Receive(incoming[m..], arrivals[1..], csize, len - m, pos + m, cancel, k + 1);
        ProgressFirst(incoming[..m], pos, len, rest);
      }
    } else {
      ProgressNone(pos, len, Receive(incoming, arrivals, csize, len, pos, cancel, k).code);
    }
  }

  lemma MinBounds(n: nat, csize: nat, len: nat, available: nat)
    ensures var m := Min(n, Min(Min(csize, len), available)); m <= len && m <= available
  {
  }

  lemma TwoReports(pos: nat, c: seq<Byte>)
    ensures StrictlyIncreasing([pos] + [pos + |c|]) <==> NoEmptyChunk([c])
  {
    var s, cs := [pos] + [pos + |c|], [c];
    assert s[0] == pos && s[1] == pos + |c| && cs[0] == c;
    assert StrictlyIncreasing(s) ==> s[0] < s[1];
  }

  lemma IncreasingFirst(p: nat, q: nat, s: seq<nat>)
    requires p <= q && forall i :: 0 <= i < |s| ==> q <= s[i]
    ensures StrictlyIncreasing([p] + ([q] + s)) <==> p < q && StrictlyIncreasing([q] + s)
    ensures ([p] + ([q] + s))[|s| + 1] == ([q] + s)[|s|]
  {
    var t := [q] + s;
    assert forall i :: 0 <= i < |t| ==> q <= t[i];
    IncreasingCons(p, t);
    hide StrictlyIncreasing;
    if p < q && StrictlyIncreasing(t) {
      assert forall i :: 0 <= i < |t| ==> p < t[i];
    } else if p == q {
      assert t[0] == q;
    }
  }

  lemma IncreasingCons(p: nat, t: seq<nat>)
    ensures StrictlyIncreasing([p] + t) <==> (forall i :: 0 <= i < |t| ==> p < t[i]) && StrictlyIncreasing(t)
  {
    var u := [p] + t;
    assert forall i :: 0 <= i < |t| ==> u[i + 1] == t[i];
    if StrictlyIncreasing(u) {
      forall i | 0 <= i < |t| ensures p < t[i] { assert u[0] < u[i + 1]; }
      forall i, j | 0 <= i < j < |t| ensures t[i] < t[j] { assert u[i + 1] < u[j + 1]; }
    }
    if (forall i :: 0 <= i < |t| ==> p < t[i]) && StrictlyIncreasing(t) {
      forall i, j | 0 <= i < j < |u| ensures u[i] < u[j] {
        if i > 0 { assert t[i - 1] < t[j - 1]; } else { assert p < t[j - 1]; }
      }
    }
  }

  lemma NoEmptyFirst(c: seq<Byte>, rest: seq<seq<Byte>>)
    ensures NoEmptyChunk([c] + rest) <==> c != [] && NoEmptyChunk(rest)
  {
    var all := [c] + rest;
    assert all[0] == c && forall i :: 0 <= i < |rest| ==> all[i + 1] == rest[i];
  }

  /** Every read that the loop makes and that brings something brings at least one byte. */
  predicate ReadsBring(incoming: seq<Byte>, arrivals: seq<Arrival>, csize: nat, len: nat, cancel: nat -> bool, k: nat) {
    forall i: nat :: i < |arrivals| && arrivals[i].Bytes? && GoesOn(incoming, arrivals, csize, len, cancel, k, i) ==>
      arrivals[i].n >= 1
  }

  lemma ReadsBringFirst(incoming: seq<Byte>, arrivals: seq<Arrival>, csize: nat, len: nat, cancel: nat -> bool, k: nat)
    requires arrivals != [] && arrivals[0].Bytes? && !cancel(k) && len > 0
    ensures var m := Min(arrivals[0].n, Min(Min(csize, len), |incoming|));
      && m <= len && m <= |incoming|
      && (ReadsBring(incoming, arrivals, csize, len, cancel, k) <==>
          arrivals[0].n >= 1 && ReadsBring(incoming[m..], arrivals[1..], csize, len - m, cancel, k + 1))
  {
    MissingShift(arrivals[0].n, csize, len, |incoming|, 0);
    var m := Min(arrivals[0].n, Min(Min(csize, len), |incoming|));
    var incoming', arrivals', len', k' := incoming[m..], arrivals[1..], len - m, k + 1;
    assert GoesOn(incoming, arrivals, csize, len, cancel, k, 0) by { assert arrivals[..0] == []; }
    hide GoesOn, Min;
    forall j: nat ensures GoesOn(incoming, arrivals, csize, len, cancel, k, j + 1) <==>
        GoesOn(incoming', arrivals', csize, len', cancel, k', j)
    {
      EndsShift(Done, incoming, arrivals, csize, len, cancel, k, j);
    }
    if ReadsBring(incoming, arrivals, csize, len, cancel, k) {
      forall i: nat | i < |arrivals'| && arrivals'[i].Bytes? && GoesOn(incoming', arrivals', csize, len', cancel, k', i)
        ensures arrivals'[i].n >= 1
      {
        assert GoesOn(incoming, arrivals, csize, len, cancel, k, i + 1) && arrivals[i + 1] == arrivals'[i];
      }
    }
    if arrivals[0].n >= 1 && ReadsBring(incoming', arrivals', csize, len', cancel, k') {
      forall i: nat | i < |arrivals| && arrivals[i].Bytes? && GoesOn(incoming, arrivals, csize, len, cancel, k, i)
        ensures arrivals[i].n >= 1
      {
        if i > 0 {
          assert GoesOn(incoming', arrivals', csize, len', cancel, k', i - 1) && arrivals'[i - 1] == arrivals[i];
        }
      }
    }
  }

  lemma ReadsBringLast(incoming: seq<Byte>, arrivals: seq<Arrival>, csize: nat, len: nat, cancel: nat -> bool, k: nat)
    requires len == 0 || arrivals == [] || !arrivals[0].Bytes? || cancel(k)
    ensures ReadsBring(incoming, arrivals, csize, len, cancel, k) <==>
      (len > 0 && arrivals != [] && arrivals[0].Bytes? ==> arrivals[0].n >= 1)
  {
    assert arrivals[..0] == [];
    if len > 0 && arrivals != [] && arrivals[0].Bytes? {
      assert GoesOn(incoming, arrivals, csize, len, cancel, k, 0);
    }
  }

  lemma NoEmptyNone()
    ensures NoEmptyChunk([])
  {
  }

  lemma BringsSome(n: nat, csize: nat, len: nat, available: nat)
    requires csize >= 1 && 0 < len <= available
    ensures var m := Min(n, Min(Min(csize, len), available));
      m <= len && (m > 0 <==> n >= 1)
  {
  }

  /** No read comes back empty exactly when every read that is made brings a byte, as long as the device has
      the bytes and a chunk has room for one. */
  lemma {:induction false} NoEmptyExactly(incoming: seq<Byte>, arrivals: seq<Arrival>, csize: nat, len: nat, pos: nat,
                                          cancel: nat -> bool, k: nat)
    requires csize >= 1 && len <= |incoming|
    ensures NoEmptyChunk(Receive(incoming, arrivals, csize, len, pos, cancel, k).chunks) <==>
      ReadsBring(incoming, arrivals, csize, len, cancel, k)
    decreases |arrivals|
  {
    hide ReadsBring, NoEmptyChunk, Min;
    NoEmptyNone();
    if len > 0 && arrivals != [] && arrivals[0].Bytes? {
      var m := Min(arrivals[0].n, Min(Min(csize, len), |incoming|));
      BringsSome(arrivals[0].n, csize, len, |incoming|);
      if cancel(k) {
        ReadsBringLast(incoming, arrivals, csize, len, cancel, k);
        NoEmptyFirst(incoming[..m], []);
        assert [incoming[..m]] + [] == [incoming[..m]];
      } else {
        ReadsBringFirst(incoming, arrivals, csize, len, cancel, k);
        NoEmptyExactly(incoming[m..], arrivals[1..], csize, len - m, pos + m, cancel, k + 1);
        NoEmptyFirst(incoming[..m], Receive(incoming[m..], arrivals[1..], csize, len - m, pos + m, cancel, k + 1).chunks);
      }
    } else {
      ReadsBringLast(incoming, arrivals, csize, len, cancel, k);
    }
  }

  /** Progress increases strictly exactly then. */
  lemma IncreaseExactly(incoming: seq<Byte>, arrivals: seq<Arrival>, csize: nat, len: nat, pos: nat,
                        cancel: nat -> bool, k: nat)
    requires csize >= 1 && len <= |incoming|
    ensures StrictlyIncreasing([pos] + Receive(incoming, arrivals, csize, len, pos, cancel, k).reports) <==>
      ReadsBring(incoming, arrivals, csize, len, cancel, k)
  {
    hide Receive, StrictlyIncreasing, NoEmptyChunk, ReadsBring;
    ReportsIncrease(incoming, arrivals, csize, len, pos, cancel, k);
    NoEmptyExactly(incoming, arrivals, csize, len, pos, cancel, k);
  }

  // ---------------------------------------------------------------- the transfer methods

  /** The loop invariant: what has been read, then what the rest of the loop does. */
  ghost predicate Continues(all: Run, incoming: seq<Byte>, arrivals: seq<Arrival>, csize: nat, len: nat, pos: nat,
                            cancel: nat -> bool, k: nat, chunks: seq<seq<Byte>>, reports: seq<nat>)
  {
    var rest := Receive(incoming, arrivals, csize, len, pos, cancel, k);
    all == Run(rest.code, chunks + rest.chunks, reports + rest.reports)
  }

  lemma ContinuesStarts(all: Run, incoming: seq<Byte>, arrivals: seq<Arrival>, csize: nat, len: nat, pos: nat,
                        cancel: nat -> bool, k: nat)
    requires all == Receive(incoming, arrivals, csize, len, pos, cancel, k)
    ensures Continues(all, incoming, arrivals, csize, len, pos, cancel, k, [], []) && Join([]) == []
  {
  }

  lemma ContinuesStops(all: Run, incoming: seq<Byte>, arrivals: seq<Arrival>, csize: nat, len: nat, pos: nat,
                       cancel: nat -> bool, k: nat, chunks: seq<seq<Byte>>, reports: seq<nat>)
    requires Continues(all, incoming, arrivals, csize, len, pos, cancel, k, chunks, reports)
    requires len == 0 || arrivals == [] || !arrivals[0].Bytes?
    ensures all.chunks == chunks && all.reports == reports
    ensures all.code == if len == 0 then Done else if arrivals == [] then Waiting
      else if arrivals[0].TimedOut? then TransferTimedOut else ReadError
  {
  }

  lemma ContinuesReads(all: Run, incoming: seq<Byte>, arrivals: seq<Arrival>, csize: nat, len: nat, pos: nat,
                       cancel: nat -> bool, k: nat, chunks: seq<seq<Byte>>, reports: seq<nat>, m: nat)
    requires Continues(all, incoming, arrivals, csize, len, pos, cancel, k, chunks, reports)
    requires len > 0 && arrivals != [] && arrivals[0].Bytes?
    requires m == Min(arrivals[0].n, Min(Min(csize, len), |incoming|))
    ensures Join(chunks + [incoming[..m]]) == Join(chunks) + incoming[..m]
    ensures if cancel(k) then all == Run(Cancelled, chunks + [incoming[..m]], reports + [pos + m])
      else Continues(all, incoming[m..], arrivals[1..], csize, len - m, pos + m, cancel, k + 1,
                     chunks + [incoming[..m]], reports + [pos + m])
  {
    JoinLast(chunks, incoming[..m]);
    if !cancel(k) {
      var rest := Receive(incoming[m..], arrivals[1..], csize, len - m, pos + m, cancel, k + 1);
      ConcatAssoc(chunks, [incoming[..m]], rest.chunks);
      ConcatAssoc(reports, [pos + m], rest.reports);
    }
  }

  lemma {:induction false} JoinLast(chunks: seq<seq<Byte>>, c: seq<Byte>)
    ensures Join(chunks + [c]) == Join(chunks) + c
  {
    if chunks == [] {
      assert [c][1..] == [];
      assert chunks + [c] == [c];
    } else {
      JoinLast(chunks[1..], c);
      assert (chunks + [c])[1..] == chunks[1..] + [c];
    }
  }

  lemma JoinPrefix(buffer: seq<Byte>, pos: nat, m: nat)
    requires pos + m <= |buffer|
    ensures buffer[..pos + m] == buffer[..pos] + buffer[pos..pos + m]
  {
  }

  /** The loop shared by both transfers: fills buffer, of which `pos` bytes are read. */
  method ReadAll(irda: Irda, buffer: array<Byte>, csize: nat, cancel: nat -> bool)
    returns (code: Code, pos: nat, reports: seq<nat>)
    modifies irda, buffer
    ensures var all := Receive(old(irda.incoming), old(irda.arrivals), csize, buffer.Length, 0, cancel, 1);
      code == all.code && reports == all.reports && pos <= buffer.Length && buffer[..pos] == Join(all.chunks)
  {
    hide Receive, Join, Continues;
    pos, reports := 0, [];
    var len: nat := buffer.Length;
    var k: nat := 1;
    ghost var all := Receive(irda.incoming, irda.arrivals, csize, len, 0, cancel, 1);
    ghost var chunks: seq<seq<Byte>> := [];
    ContinuesStarts(all, irda.incoming, irda.arrivals, csize, len, 0, cancel, 1);
    while len > 0
      invariant pos + len == buffer.Length && pos >= 0
      invariant buffer[..pos] == Join(chunks)
      invariant Continues(all, irda.incoming, irda.arrivals, csize, len, pos, cancel, k, chunks, reports)
      decreases |irda.arrivals|
    {
      ghost var incoming, arrivals := irda.incoming, irda.arrivals;
      var size := if len > csize then csize else len;
      var r := irda.Read(buffer, pos, size);
      if !r.Got? {
        ContinuesStops(all, incoming, arrivals, csize, len, pos, cancel, k, chunks, reports);
        code := match r case ReadTimedOut => TransferTimedOut case ReadFailed => ReadError case _ => Waiting;
        return;
      }
      ContinuesReads(all, incoming, arrivals, csize, len, pos, cancel, k, chunks, reports, r.n);
      JoinPrefix(buffer[..], pos, r.n);
      chunks := chunks + [incoming[..r.n]];
      len := len - r.n;
      pos := pos + r.n;
      reports := reports + [pos];
      if cancel(k) { code := Cancelled; return; }
      k := k + 1;
    }
    ContinuesStops(all, irda.incoming, irda.arrivals, csize, len, pos, cancel, k, chunks, reports);
    code := Done;
  }

  /** smart_driver_transfer after the size and length replies were read: `size` as announced, `nb` as
      repeated with the data command. */
  method DriverTransfer(irda: Irda, csize: nat, size: Word, nb: Word, cancel: nat -> bool)
    returns (code: Code, data: seq<Byte>, reports: seq<nat>)
    modifies irda
    ensures size == 0 ==> code == Done && data == [] && reports == []
    ensures size != 0 && nb != U32(size + 4) ==> code == LengthMismatch && data == [] && reports == []
    ensures size != 0 && nb == U32(size + 4) ==>
      if cancel(0) then code == Cancelled && data == [] && reports == [0]
      else
        var run := Receive(old(irda.incoming), old(irda.arrivals), csize, size, 0, cancel, 1);
        code == run.code && data == Join(run.chunks) && reports == [0] + run.reports
  {
    if size == 0 { return Done, [], []; }
    if nb != U32(size + 4) { return LengthMismatch, [], []; }
    var buffer := new Byte[size];
    if cancel(0) { return Cancelled, [], [0]; }
    var pos, later;
    code, pos, later := ReadAll(irda, buffer, csize, cancel);
    return code, buffer[..pos], [0] + later;
  }

  /** smartid_dev_xfer_data after the length reply `nb` was read.  A read that fails or times out frees the
      address of the caller's pointer instead of the buffer. */
  method DaemonTransfer(irda: Irda, csize: nat, nb: Word) returns (code: Code, data: seq<Byte>)
    modifies irda
    ensures nb == 4 ==> code == NothingToRead && data == []
    ensures nb < 4 ==> code == DeviceError && data == []
    ensures nb > 4 ==>
      var run := Receive(old(irda.incoming), old(irda.arrivals), csize, nb - 4, 0, Never, 1);
      && code == (if run.code.ReadError? || run.code.TransferTimedOut? then InvalidFree else run.code)
      && data == if run.code.Done? then Join(run.chunks) else []
    ensures nb > 4 ==> (code.InvalidFree? <==> Breaks(old(irda.incoming), old(irda.arrivals), csize, nb - 4))
    ensures nb > 4 ==>
      (code.Done? <==> Ends(Done, old(irda.incoming), old(irda.arrivals), csize, nb - 4, Never, 1))
  {
    hide Receive, Ends, Breaks, Join;
    if nb > 4 {
      BreaksExactly(irda.incoming, irda.arrivals, csize, nb - 4);
      CodeExactly(Done, irda.incoming, irda.arrivals, csize, nb - 4, 0, Never, 1);
    }
    if nb == 4 { return NothingToRead, []; }
    if nb < 4 { return DeviceError, []; }
    var buffer := new Byte[nb - 4];
    var pos, reports;
    code, pos, reports := ReadAll(irda, buffer, csize, Never);
    if code == ReadError || code == TransferTimedOut { code := InvalidFree; }
    data := if code == Done then buffer[..pos] else [];
  }
}
