/**
  What class Modbus (src/modbus/modbus.cc) does over whole runs: any number of calls of
  receive_modbus_frame, with the response cut into chunks in any way, empty chunks included.
 */
module RtuRuns {

  import opened Crc16
  import opened ErrorDetection
  import opened BitErrors
  import opened RtuMaster

  datatype Option<T> = None | Some(value: T)

  /** The bytes of all chunks, in order. */
  function Flatten(cs: seq<seq<byte>>): seq<byte> {
    if cs == [] then [] else Flatten(cs[..|cs| - 1]) + cs[|cs| - 1]
  }

  lemma {:induction false} FlattenHead(cs: seq<seq<byte>>)
    requires cs != []
    ensures Flatten(cs) == cs[0] + Flatten(cs[1..])
  {
    var n := |cs| - 1;
    if n > 0 {
      FlattenHead(cs[..n]);
      assert cs[..n][1..] == cs[1..][..n - 1];
    }
  }

  lemma {:induction false} FlattenGrows(cs: seq<seq<byte>>, k: nat)
    requires k <= |cs|
    ensures Flatten(cs[..k]) <= Flatten(cs)
  {
    if k < |cs| {
      FlattenGrows(cs[..|cs| - 1], k);
      assert cs[..|cs| - 1][..k] == cs[..k];
    } else {
      assert cs[..k] == cs;
    }
  }

  /** The state after all the chunks. */
  function After(q: Request, p: Progress, cs: seq<seq<byte>>): Progress
    requires WellFormed(q)
  {
    if cs == [] then p else Receive(q, After(q, p, cs[..|cs| - 1]), cs[|cs| - 1]).next
  }

  /** The result of the last call. */
  function LastResult(q: Request, p: Progress, cs: seq<seq<byte>>): bool
    requires WellFormed(q) && cs != []
  {
    Receive(q, After(q, p, cs[..|cs| - 1]), cs[|cs| - 1]).ok
  }

  /** The result of the first call that leaves the request finished. */
  function FirstFinish(q: Request, p: Progress, cs: seq<seq<byte>>): Option<bool>
    requires WellFormed(q)
    decreases |cs|
  {
    if cs == [] then None
    else
      var o := Receive(q, p, cs[0]);
      if o.next.finished then Some(o.ok) else FirstFinish(q, o.next, cs[1..])
  }

  // ---------- every call, every request ----------

  lemma {:induction false} StoreKeeps(values: map<Address, ushort>, address: nat, ws: seq<ushort>, k: Address)
    requires k in values
    ensures k in Store(values, address, ws) && Store(values, address, ws)[k] == values[k]
  {
    if ws != [] {
      StoreKeeps(values, address, ws[..|ws| - 1], k);
    }
  }

  /** Nothing recorded is lost: finished and confirmed stay, and a register keeps its value. */
  ghost predicate Keeps(p: Progress, next: Progress) {
    && (p.finished ==> next.finished)
    && (p.confirmed ==> next.confirmed)
    && (forall k :: k in p.values ==> k in next.values && next.values[k] == p.values[k])
  }

  /** Every call keeps what is recorded; a completed request is finished; a failed call completes it. */
  lemma ReceiveKeeps(q: Request, p: Progress, chunk: seq<byte>)
    requires WellFormed(q)
    ensures Keeps(p, Receive(q, p, chunk).next)
    ensures Receive(q, p, chunk).next.completed ==> Receive(q, p, chunk).next.finished
    ensures !Receive(q, p, chunk).ok ==> Receive(q, p, chunk).next.completed
  {
    var a := Accumulate(q, p, chunk);
    assert Keeps(p, a);
    if a.completed && q.code == ReadHoldingRegisters {
      forall k | k in p.values
        ensures var after := Recorded(a.values, q.address as int, a.response); k in after && after[k] == p.values[k]
      {
        StoreKeeps(a.values, q.address as int, Words(a.response, WordCount(a.response)), k);
      }
    }
  }

  /** So does every run. */
  lemma {:induction false} RunKeeps(q: Request, p: Progress, cs: seq<seq<byte>>)
    requires WellFormed(q)
    ensures Keeps(p, After(q, p, cs))
  {
    if cs != [] {
      RunKeeps(q, p, cs[..|cs| - 1]);
      ReceiveKeeps(q, After(q, p, cs[..|cs| - 1]), cs[|cs| - 1]);
    }
  }

  // ---------- reads ----------

  predicate ReadAccepts(q: Request, r: seq<byte>) {
    |r| >= 2 && r[0] == q.slave && r[1] == q.code.Code() && CarriesCrc(r)
  }

  lemma ReadStep(q: Request, p: Progress, chunk: seq<byte>)
    requires WellFormed(q) && q.code == ReadHoldingRegisters
    ensures var r := p.response + chunk; var Outcome(next, ok) := Receive(q, p, chunk);
            && next.response == r
            && next.completed == ReadComplete(r)
            && ok == (ReadComplete(r) ==> ReadAccepts(q, r))
            && next.finished == (p.finished || ReadComplete(r))
            && next.values == if ReadComplete(r) && ok then Recorded(p.values, q.address as int, r) else p.values
  {}

  /** A read, after any chunks: it has kept every byte; it is complete exactly when the bytes so far
      are as many as the byte count among them announces; the last call failed exactly when it
      completed an unacceptable response; and it is finished exactly when some prefix was complete. */
  lemma {:induction false} ReadRun(q: Request, p: Progress, cs: seq<seq<byte>>)
    requires WellFormed(q) && q.code == ReadHoldingRegisters && p == Fresh(p.confirmed)
    ensures After(q, p, cs).response == Flatten(cs)
    ensures cs != [] ==> After(q, p, cs).completed == ReadComplete(Flatten(cs))
    ensures cs != [] ==> LastResult(q, p, cs) == (ReadComplete(Flatten(cs)) ==> ReadAccepts(q, Flatten(cs)))
    ensures After(q, p, cs).finished <==> exists k :: 0 < k <= |cs| && ReadComplete(Flatten(cs[..k]))
  {
    if cs != [] {
      var n := |cs| - 1;
      ReadRun(q, p, cs[..n]);
      ReadStep(q, After(q, p, cs[..n]), cs[n]);
      assert forall k :: 0 < k <= n ==> cs[..n][..k] == cs[..k];
      assert cs[..n + 1] == cs;
    }
  }

  // ---------- the round trip of a read ----------

  /** The answer to a read: slave, code, byte count, registers and CRC. */
  lemma ReadResponseIs(slave: byte, values: seq<ushort>, bytes: byte, body: seq<byte>)
    requires (bytes as int) == 2 * |values|
    requires body == [slave, ReadHoldingRegisters.Code(), bytes] + Wire(values)
    ensures IsReadResponse(slave, values, WithCrc(body))
  {
    var r := WithCrc(body);
    WithCrcIsValid(body);
    WireAt(values);
    assert r[..|r| - 2] == body && r[3..|r| - 2] == body[3..];
  }

  lemma WordAt(r: seq<byte>, regs: seq<ushort>, k: nat)
    requires |r| >= 3 + 2 * |regs| && r[3..3 + 2 * |regs|] == Wire(regs) && k < |regs|
    ensures r[3 + 2 * k] == HighHalf(regs[k]) && r[4 + 2 * k] == LowHalf(regs[k])
  {
    WireAt(regs);
    assert r[3 + 2 * k] == r[3..3 + 2 * |regs|][2 * k];
    assert r[4 + 2 * k] == r[3..3 + 2 * |regs|][2 * k + 1];
  }

  lemma WordOfWire(r: seq<byte>, regs: seq<ushort>, k: nat)
    requires |r| >= 3 + 2 * |regs| && r[3..3 + 2 * |regs|] == Wire(regs) && k < |regs|
    ensures WordIs(r, k, regs[k])
  {
    WordAt(r, regs, k);
    PairOfHalves(regs[k]);
  }

  predicate WordIs(r: seq<byte>, k: nat, w: ushort)
    requires 4 + 2 * k < |r|
  {
    Pair(r[3 + 2 * k], r[4 + 2 * k]) == w
  }

  lemma WordsAre(r: seq<byte>, regs: seq<ushort>)
    requires |r| >= 3 + 2 * |regs| && forall k :: 0 <= k < |regs| ==> WordIs(r, k, regs[k])
    ensures Words(r, |regs|) == regs
  {
    var ws := Words(r, |regs|);
    forall k | 0 <= k < |regs| ensures ws[k] == regs[k] {
      assert WordIs(r, k, regs[k]);
    }
  }

  /** Registers on the wire decode to themselves. */
  lemma WordsOfWire(r: seq<byte>, regs: seq<ushort>)
    requires |r| >= 3 + 2 * |regs| && r[3..3 + 2 * |regs|] == Wire(regs)
    ensures Words(r, |regs|) == regs
  {
    forall k | 0 <= k < |regs| ensures WordIs(r, k, regs[k]) {
      WordOfWire(r, regs, k);
    }
    WordsAre(r, regs);
  }

  lemma KeyInjective(address: nat, i: nat, j: nat)
    requires i < 0x10000 && j < 0x10000
    ensures Key(address, i) == Key(address, j) <==> i == j
  {}

  /** The registers recorded at the keys that follow `address`, and nothing else. */
  ghost predicate Keyed(values: map<Address, ushort>, address: nat, regs: seq<ushort>) {
    && (forall i :: 0 <= i < |regs| ==> Key(address, i) in values && values[Key(address, i)] == regs[i])
    && (forall k :: k in values ==> exists i :: 0 <= i < |regs| && k == Key(address, i))
  }

  predicate RecordedAs(values: map<Address, ushort>, k: Address, w: ushort) {
    k in values && values[k] == w
  }

  /** Register i is recorded as `address` + 1 + i, wrapping at 65536, and nothing else is. */
  ghost predicate Records(values: map<Address, ushort>, address: nat, regs: seq<ushort>) {
    && (forall i :: 0 <= i < |regs| ==> RecordedAs(values, (address + 1 + i) % 0x10000, regs[i]))
    && (forall k :: k in values ==>
        exists i :: 0 <= i < |regs| && regs[i] == values[k] && k == (address + 1 + i) % 0x10000)
  }

  lemma KeyedRecords(values: map<Address, ushort>, address: nat, regs: seq<ushort>)
    requires Keyed(values, address, regs)
    ensures Records(values, address, regs)
  {
    forall i | 0 <= i < |regs| ensures RecordedAs(values, (address + 1 + i) % 0x10000, regs[i]) {
      assert values[Key(address, i)] == regs[i];
    }
    forall k | k in values
      ensures exists i :: 0 <= i < |regs| && regs[i] == values[k] && k == (address + 1 + i) % 0x10000
    {
      var i :| 0 <= i < |regs| && k == Key(address, i);
      assert values[Key(address, i)] == regs[i];
    }
  }

  lemma {:induction false} StoreFresh(address: nat, regs: seq<ushort>)
    requires |regs| <= 0x10000
    ensures Keyed(Store(map[], address, regs), address, regs)
  {
    if regs != [] {
      var n := |regs| - 1;
      StoreFresh(address, regs[..n]);
      forall i | 0 <= i < n ensures Key(address, i) != Key(address, n) {
        KeyInjective(address, i, n);
      }
    }
  }

  lemma {:induction false} StoreAgain(values: map<Address, ushort>, address: nat, regs: seq<ushort>)
    requires forall i :: 0 <= i < |regs| ==> Key(address, i) in values
    ensures Store(values, address, regs) == values
  {
    if regs != [] {
      StoreAgain(values, address, regs[..|regs| - 1]);
    }
  }

  lemma ResponseRecorded(slave: byte, regs: seq<ushort>, r: seq<byte>, values: map<Address, ushort>, address: nat)
    requires IsReadResponse(slave, regs, r)
    ensures ReadComplete(r) && Recorded(values, address, r) == Store(values, address, regs)
  {
    WordsOfWire(r, regs);
    assert WordCount(r) == |regs|;
  }

  /** The call that completes the response to a read. */
  lemma LastReadStep(q: Request, p: Progress, chunk: seq<byte>, regs: seq<ushort>)
    requires WellFormed(q) && q.code == ReadHoldingRegisters
    requires IsReadResponse(q.slave, regs, p.response + chunk)
    ensures Receive(q, p, chunk).next.completed && Receive(q, p, chunk).ok
    ensures Receive(q, p, chunk).next.values == Store(p.values, q.address as int, regs)
  {
    ReadStep(q, p, chunk);
    ResponseRecorded(q.slave, regs, p.response + chunk, p.values, q.address as int);
  }

  /** A call before that. */
  lemma EarlyReadStep(q: Request, p: Progress, chunk: seq<byte>, regs: seq<ushort>, f: seq<byte>)
    requires WellFormed(q) && q.code == ReadHoldingRegisters
    requires IsReadResponse(q.slave, regs, f) && p.response + chunk < f
    ensures !Receive(q, p, chunk).next.completed && Receive(q, p, chunk).ok
    ensures Receive(q, p, chunk).next.values == p.values
  {
    var r := p.response + chunk;
    assert |r| >= 3 ==> r[2] == f[2];
  }

  lemma {:induction false} ReadRound(
      q: Request, p: Progress, cs: seq<seq<byte>>, regs: seq<ushort>, f: seq<byte>)
    requires WellFormed(q) && q.code == ReadHoldingRegisters && p == Fresh(p.confirmed)
    requires IsReadResponse(q.slave, regs, f) && Flatten(cs) <= f
    ensures cs != [] ==> LastResult(q, p, cs)
    ensures cs != [] ==> (After(q, p, cs).completed <==> Flatten(cs) == f)
    ensures Flatten(cs) == f ==> Keyed(After(q, p, cs).values, q.address as int, regs)
    ensures Flatten(cs) != f ==> After(q, p, cs).values == map[]
  {
    if cs != [] {
      var n := |cs| - 1;
      var before := After(q, p, cs[..n]);
      ReadRun(q, p, cs[..n]);
      ReadRound(q, p, cs[..n], regs, f);
      if Flatten(cs) == f {
        LastReadStep(q, before, cs[n], regs);
        if Flatten(cs[..n]) == f {
          StoreAgain(before.values, q.address as int, regs);
        } else {
          ByteBound(f[2]);
          StoreFresh(q.address as int, regs);
        }
      } else {
        EarlyReadStep(q, before, cs[n], regs, f);
      }
    }
  }

  /** However a response to a read is cut into chunks: every call returns true, completion comes
      exactly when all of it has arrived, and the registers are recorded then and only then. */
  lemma ReadRoundTrip(q: Request, p: Progress, cs: seq<seq<byte>>, regs: seq<ushort>, f: seq<byte>)
    requires WellFormed(q) && q.code == ReadHoldingRegisters && p == Fresh(p.confirmed)
    requires IsReadResponse(q.slave, regs, f) && Flatten(cs) <= f
    ensures cs != [] ==> LastResult(q, p, cs)
    ensures cs != [] ==> (After(q, p, cs).completed <==> Flatten(cs) == f)
    ensures Flatten(cs) == f ==> Records(After(q, p, cs).values, q.address as int, regs)
    ensures Flatten(cs) != f ==> After(q, p, cs).values == map[]
  {
    ReadRound(q, p, cs, regs, f);
    if Flatten(cs) == f {
      KeyedRecords(After(q, p, cs).values, q.address as int, regs);
    }
  }

  /** A response to a read, byte by byte. */
  lemma ReadResponseBytes(slave: byte, values: seq<ushort>, r: seq<byte>)
    ensures IsReadResponse(slave, values, r) <==>
            && |r| == 2 * |values| + 5 && r[0] == slave && r[1] == 0x03 && (r[2] as int) == 2 * |values|
            && (forall i :: 0 <= i < |values| ==> WordIs(r, i, values[i])) && CarriesCrc(r)
  {
    if |r| == 2 * |values| + 5 {
      var words := r[3..|r| - 2];
      WireAt(values);
      if words == Wire(values) {
        forall i | 0 <= i < |values| ensures WordIs(r, i, values[i]) {
          WordOfWire(r, values, i);
        }
      }
      if forall i :: 0 <= i < |values| ==> WordIs(r, i, values[i]) {
        WordsAreWire(r, values, |values|);
        assert values[..|values|] == values;
      }
    }
  }

  lemma {:induction false} WordsAreWire(r: seq<byte>, values: seq<ushort>, k: nat)
    requires |r| == 2 * |values| + 5 && k <= |values| && forall i :: 0 <= i < |values| ==> WordIs(r, i, values[i])
    ensures r[3..3 + 2 * k] == Wire(values[..k])
  {
    if k > 0 {
      var n := k - 1;
      WordsAreWire(r, values, n);
      WordBytes(r, n, values[n]);
      assert values[..k][..n] == values[..n];
      assert r[3..3 + 2 * k] == r[3..3 + 2 * n] + [r[3 + 2 * n], r[4 + 2 * n]];
    }
  }

  lemma WordBytes(r: seq<byte>, i: nat, w: ushort)
    requires 4 + 2 * i < |r| && WordIs(r, i, w)
    ensures r[3 + 2 * i] == HighHalf(w) && r[4 + 2 * i] == LowHalf(w)
  {
    HalvesOfPair(r[3 + 2 * i], r[4 + 2 * i]);
  }

  /** A complete response to a read is accepted if and only if it comes from the slave asked, with the function
      0x03 and a CRC that takes the register started at 0xFFFF to zero. */
  lemma ReadVerdict(q: Request, p: Progress, cs: seq<seq<byte>>)
    requires WellFormed(q) && q.code == ReadHoldingRegisters && p == Fresh(p.confirmed) && cs != []
    requires var r := Flatten(cs); |r| >= 3 && |r| == (r[2] as int) + 5
    ensures var r := Flatten(cs);
            LastResult(q, p, cs) <==> r[0] == q.slave && r[1] == 0x03 && Register(0xFFFF, r) == 0
  {
    ReadRun(q, p, cs);
    ValidIffZero(Flatten(cs));
  }

  /** The call that accepts a response to a read records, with nothing on record before, the words the byte count
      announces: when it is odd the last word borrows the first byte of the CRC. */
  lemma AcceptedReadRecorded(q: Request, p: Progress, chunk: seq<byte>, regs: seq<ushort>)
    requires WellFormed(q) && q.code == ReadHoldingRegisters && p.values == map[]
    requires var r := p.response + chunk;
             && |r| >= 3 && |r| == (r[2] as int) + 5 && Receive(q, p, chunk).ok
             && |regs| == ((r[2] as int) + 1) / 2 && forall i :: 0 <= i < |regs| ==> WordIs(r, i, regs[i])
    ensures Records(Receive(q, p, chunk).next.values, q.address as int, regs)
  {
    var r := p.response + chunk;
    ReadStep(q, p, chunk);
    ByteBound(r[2]);
    WordsAre(r, regs);
    StoreFresh(q.address as int, regs);
    KeyedRecords(Store(map[], q.address as int, regs), q.address as int, regs);
  }

  lemma ByteBound(b: byte)
    ensures (b as int) < 256
  {}

  // ---------- corrupted answers ----------

  /** The errors the CRC is proved to detect in frames this short: a burst of at most sixteen bits
      anywhere, or any one, two or three bits. */
  ghost predicate DetectableError(f: seq<byte>, g: seq<byte>)
    requires |f| == |g|
  {
    || (f != g && exists t0: nat :: WithinBurst(f, g, t0))
    || 1 <= |FlippedBits(f, g)| <= 3
    || |FlippedBits(f, g)| % 2 == 1
  }

  lemma DetectableErrorBreaksCrc(f: seq<byte>, g: seq<byte>)
    requires 2 <= |f| == |g| <= 4095 && CarriesCrc(f) && DetectableError(f, g)
    ensures !CarriesCrc(g)
  {
    if |FlippedBits(f, g)| % 2 == 1 {
      OddErrorDetected(f, g);
    } else if 1 <= |FlippedBits(f, g)| <= 3 {
      UpToThreeBitsDetected(f, g);
    } else {
      var t0: nat :| WithinBurst(f, g, t0);
      BurstDetected(f, g, t0);
    }
  }

  lemma BadCrcStep(q: Request, p: Progress, chunk: seq<byte>, g: seq<byte>)
    requires WellFormed(q) && q.code == ReadHoldingRegisters
    requires ReadComplete(g) && !CarriesCrc(g) && p.response + chunk <= g
    ensures Receive(q, p, chunk).next.values == p.values
    ensures Receive(q, p, chunk).ok <==> p.response + chunk != g
  {
    var r := p.response + chunk;
    ReadStep(q, p, chunk);
    SameLength(r, g);
  }

  /** A prefix of a complete answer is complete only as the whole. */
  lemma SameLength(r: seq<byte>, g: seq<byte>)
    requires ReadComplete(g) && r <= g
    ensures ReadComplete(r) <==> r == g
  {
    assert |r| >= 3 ==> r[2] == g[2];
  }

  /** A complete answer with a wrong CRC, however it is cut: the call that completes it fails, and
      no register is recorded. */
  lemma {:induction false} BadCrcRejected(q: Request, p: Progress, cs: seq<seq<byte>>, g: seq<byte>)
    requires WellFormed(q) && q.code == ReadHoldingRegisters && p == Fresh(p.confirmed)
    requires ReadComplete(g) && !CarriesCrc(g) && Flatten(cs) <= g
    ensures After(q, p, cs).values == map[]
    ensures cs != [] ==> (LastResult(q, p, cs) <==> Flatten(cs) != g)
  {
    if cs != [] {
      var n := |cs| - 1;
      ReadRun(q, p, cs[..n]);
      BadCrcRejected(q, p, cs[..n], g);
      BadCrcStep(q, After(q, p, cs[..n]), cs[n], g);
    }
  }

  /** A response damaged in transit by a detectable error that spares its byte count is rejected
      when it completes, and records nothing, however it is cut into chunks. */
  lemma DamagedReadRejected(
      q: Request, p: Progress, cs: seq<seq<byte>>, regs: seq<ushort>, f: seq<byte>, g: seq<byte>)
    requires WellFormed(q) && q.code == ReadHoldingRegisters && p == Fresh(p.confirmed)
    requires IsReadResponse(q.slave, regs, f) && |g| == |f| && g[2] == f[2] && DetectableError(f, g)
    requires Flatten(cs) <= g
    ensures After(q, p, cs).values == map[]
    ensures cs != [] ==> (LastResult(q, p, cs) <==> Flatten(cs) != g)
  {
    ByteBound(f[2]);
    DetectableErrorBreaksCrc(f, g);
    BadCrcRejected(q, p, cs, g);
  }

  // ---------- cuts of a stream ----------

  /** Some chunk boundary falls exactly at the end of f, in the stream that starts with r. */
  ghost predicate CutsAt(r: seq<byte>, cs: seq<seq<byte>>, f: seq<byte>) {
    exists m :: 0 < m <= |cs| && r + Flatten(cs[..m]) == f
  }

  lemma CutsAtHead(r: seq<byte>, cs: seq<seq<byte>>, f: seq<byte>)
    requires cs != []
    ensures CutsAt(r, cs, f) <==> r + cs[0] == f || CutsAt(r + cs[0], cs[1..], f)
  {
    assert forall m {:trigger Flatten(cs[..m])} :: 0 < m <= |cs| ==>
        r + Flatten(cs[..m]) == (r + cs[0]) + Flatten(cs[1..][..m - 1]) by {
      forall m | 0 < m <= |cs| ensures r + Flatten(cs[..m]) == (r + cs[0]) + Flatten(cs[1..][..m - 1]) {
        FlattenHead(cs[..m]);
        assert cs[..m][1..] == cs[1..][..m - 1];
      }
    }
    if CutsAt(r, cs, f) {
      var m :| 0 < m <= |cs| && r + Flatten(cs[..m]) == f;
      assert (r + cs[0]) + Flatten(cs[1..][..m - 1]) == f;
    }
    if r + cs[0] == f {
      assert Flatten(cs[..1]) == cs[0];
    }
    if CutsAt(r + cs[0], cs[1..], f) {
      var m :| 0 < m <= |cs[1..]| && (r + cs[0]) + Flatten(cs[1..][..m]) == f;
      assert r + Flatten(cs[..m + 1]) == f;
    }
  }

  // ---------- single writes ----------

  /** The only answer to a single write is the request itself. */
  lemma SingleWriteAnswer(slave: byte, address: ushort, n: ushort, r: seq<byte>)
    ensures var q := ShortRequest(slave, PresetSingleRegister, address, n);
            r == q.frame <==>
            |r| == 8 && r[0] == slave && r[1] == q.code.Code() && CarriesCrc(r)
            && Pair(r[2], r[3]) == address && Pair(r[4], r[5]) == n
  {
    var q := ShortRequest(slave, PresetSingleRegister, address, n);
    var body := [slave, q.code.Code(), HighHalf(address), LowHalf(address), HighHalf(n), LowHalf(n)];
    WithCrcIsValid(body);
    PairOfHalves(address);
    PairOfHalves(n);
    if |r| == 8 && CarriesCrc(r) && Pair(r[2], r[3]) == address && Pair(r[4], r[5]) == n {
      ValidIsWithCrc(r);
      HalvesOfPair(r[2], r[3]);
      HalvesOfPair(r[4], r[5]);
      assert r[..6] == [r[0], r[1], r[2], r[3], r[4], r[5]];
    }
  }

  lemma SingleWriteStep(q: Request, p: Progress, chunk: seq<byte>)
    requires q == ShortRequest(q.slave, PresetSingleRegister, q.address, q.numberOrValue) && !p.finished
    ensures var r := p.response + chunk; var Outcome(next, ok) := Receive(q, p, chunk);
            && next.response == r && next.finished == (|r| == 8)
            && ok == (|r| == 8 ==> r == q.frame)
  {
    SingleWriteAnswer(q.slave, q.address, q.numberOrValue, p.response + chunk);
  }

  /** A single write succeeds exactly when a chunk boundary falls at the end of a byte-for-byte
      echo of the request, and otherwise fails exactly when one falls after eight other bytes. */
  lemma {:induction false} SingleWriteRun(q: Request, p: Progress, cs: seq<seq<byte>>)
    requires q == ShortRequest(q.slave, PresetSingleRegister, q.address, q.numberOrValue)
    requires !p.finished && |p.response| != 8
    ensures FirstFinish(q, p, cs) == Some(true) <==> CutsAt(p.response, cs, q.frame)
    ensures FirstFinish(q, p, cs) == Some(false) <==>
            exists f: seq<byte> :: |f| == 8 && f != q.frame && CutsAt(p.response, cs, f)
    decreases |cs|
  {
    if cs != [] {
      var next, rest := Receive(q, p, cs[0]).next, cs[1..];
      var r := p.response + cs[0];
      SingleWriteStep(q, p, cs[0]);
      CutsAtHead(p.response, cs, q.frame);
      forall f: seq<byte> ensures CutsAt(p.response, cs, f) <==> r == f || CutsAt(r, rest, f) {
        CutsAtHead(p.response, cs, f);
      }
      if |r| == 8 {
        forall f: seq<byte> | |f| == 8 ensures CutsAt(r, rest, f) ==> r == f {
        }
        assert CutsAt(p.response, cs, r);
      } else {
        SingleWriteRun(q, next, rest);
      }
    }
  }

  // ---------- multiple writes ----------

  lemma SameInteger(w: ushort, w': ushort)
    requires (w as int) == (w' as int)
    ensures w == w'
  {
    assert (w as int) as ushort == w && (w' as int) as ushort == w';
  }

  /** There is only one answer to a multiple write. */
  lemma WriteResponseUnique(q: Request, f: seq<byte>, g: seq<byte>)
    requires IsWriteResponse(q, f) && IsWriteResponse(q, g)
    ensures f == g
  {
    PairInjective(f[2], f[3], g[2], g[3]);
    SameInteger(Pair(f[4], f[5]), Pair(g[4], g[5]));
    PairInjective(f[4], f[5], g[4], g[5]);
    ValidIsWithCrc(f);
    ValidIsWithCrc(g);
    assert f[..6] == [f[0], f[1], f[2], f[3], f[4], f[5]];
    assert g[..6] == [g[0], g[1], g[2], g[3], g[4], g[5]];
  }

  /** It is the short frame that carries the number of registers written. */
  lemma WriteResponseIs(q: Request, count: ushort)
    requires (count as int) == |q.toWrite|
    ensures IsWriteResponse(q, ShortFrame(q.slave, q.code, q.address, count))
  {
    WithCrcIsValid([q.slave, q.code.Code(), HighHalf(q.address), LowHalf(q.address), HighHalf(count), LowHalf(count)]);
    PairOfHalves(q.address);
    PairOfHalves(count);
  }

  lemma AnswerStep(q: Request, p: Progress, chunk: seq<byte>)
    requires WellFormed(q) && q.code == PresetMultipleRegister && p.confirmed && !p.finished
    ensures var r := p.response + chunk; var Outcome(next, ok) := Receive(q, p, chunk);
            && next.response == r && next.confirmed && next.finished == (|r| >= 8)
            && ok == (|r| >= 8 ==> IsWriteResponse(q, r))
  {}

  /** A multiple write that awaits no echo succeeds exactly when a chunk boundary falls at the end
      of the answer, and is finished by the eighth byte. */
  lemma {:induction false} AnswerRun(q: Request, p: Progress, cs: seq<seq<byte>>)
    requires WellFormed(q) && q.code == PresetMultipleRegister && p.confirmed && !p.finished
    requires |p.response| < 8
    ensures FirstFinish(q, p, cs) == Some(true) <==>
            exists f :: IsWriteResponse(q, f) && CutsAt(p.response, cs, f)
    ensures FirstFinish(q, p, cs) == None <==> |p.response + Flatten(cs)| < 8
    decreases |cs|
  {
    if cs != [] {
      var next, rest := Receive(q, p, cs[0]).next, cs[1..];
      var r := p.response + cs[0];
      AnswerStep(q, p, cs[0]);
      FlattenHead(cs);
      forall f ensures CutsAt(p.response, cs, f) <==> r == f || CutsAt(r, rest, f) {
        CutsAtHead(p.response, cs, f);
      }
      if |r| >= 8 {
        forall f | |f| == 8 ensures CutsAt(r, rest, f) ==> r == f {
        }
      } else {
        AnswerRun(q, next, rest);
      }
    }
  }

  lemma EchoStep(q: Request, p: Progress, chunk: seq<byte>)
    requires WellFormed(q) && q.code == PresetMultipleRegister && q.needConfirm && !p.confirmed && !p.finished
    ensures var r := p.response + chunk; var Outcome(next, ok) := Receive(q, p, chunk);
            && (r == q.frame ==> ok && !next.finished && next.confirmed && next.response == [])
            && (r != q.frame && |r| < |q.frame| ==> ok && !next.finished && !next.confirmed && next.response == r)
            && (r != q.frame && |r| >= |q.frame| ==> !ok && next.finished)
  {}

  /** The stream from r is the echo e up to a chunk boundary, and then f up to a later one. */
  ghost predicate EchoThen(r: seq<byte>, cs: seq<seq<byte>>, e: seq<byte>, f: seq<byte>) {
    exists j :: 0 < j <= |cs| && r + Flatten(cs[..j]) == e && CutsAt([], cs[j..], f)
  }

  lemma FlattenFrom(r: seq<byte>, cs: seq<seq<byte>>, j: nat)
    requires 0 < j <= |cs|
    ensures r + Flatten(cs[..j]) == (r + cs[0]) + Flatten(cs[1..][..j - 1])
    ensures cs[j..] == cs[1..][j - 1..]
  {
    FlattenHead(cs[..j]);
    assert cs[..j][1..] == cs[1..][..j - 1];
  }

  /** Empty chunks in front make no difference. */
  lemma {:induction false} CutsAfterEmpty(cs: seq<seq<byte>>, j: nat, f: seq<byte>)
    requires j <= |cs| && Flatten(cs[..j]) == [] && CutsAt([], cs[j..], f)
    ensures CutsAt([], cs, f)
  {
    if j > 0 {
      FlattenFrom([], cs, j);
      assert cs[0] == [] && Flatten(cs[1..][..j - 1]) == [];
      CutsAfterEmpty(cs[1..], j - 1, f);
      CutsAtHead([], cs, f);
      assert [] + cs[0] == [];
    } else {
      assert cs[0..] == cs;
    }
  }

  lemma EchoThenSplit(r: seq<byte>, cs: seq<seq<byte>>, e: seq<byte>, f: seq<byte>)
    requires cs != [] && EchoThen(r, cs, e, f)
    ensures (r + cs[0] == e && CutsAt([], cs[1..], f)) || EchoThen(r + cs[0], cs[1..], e, f)
  {
    var j :| 0 < j <= |cs| && r + Flatten(cs[..j]) == e && CutsAt([], cs[j..], f);
    FlattenFrom(r, cs, j);
    if j == 1 {
      assert Flatten(cs[1..][..0]) == [];
    } else {
      assert 0 < j - 1 <= |cs[1..]| && (r + cs[0]) + Flatten(cs[1..][..j - 1]) == e;
    }
  }

  lemma EchoFirst(r: seq<byte>, cs: seq<seq<byte>>, e: seq<byte>, f: seq<byte>)
    requires cs != [] && r + cs[0] == e && CutsAt([], cs[1..], f)
    ensures EchoThen(r, cs, e, f)
  {
    FlattenFrom(r, cs, 1);
    assert r + Flatten(cs[..1]) == e;
  }

  lemma EchoLater(r: seq<byte>, cs: seq<seq<byte>>, e: seq<byte>, f: seq<byte>)
    requires cs != [] && EchoThen(r + cs[0], cs[1..], e, f)
    ensures EchoThen(r, cs, e, f)
    ensures r + cs[0] == e ==> CutsAt([], cs[1..], f)
  {
    var j :| 0 < j <= |cs[1..]| && (r + cs[0]) + Flatten(cs[1..][..j]) == e && CutsAt([], cs[1..][j..], f);
    FlattenFrom(r, cs, j + 1);
    assert r + Flatten(cs[..j + 1]) == e;
    if r + cs[0] == e {
      assert Flatten(cs[1..][..j]) == [];
      CutsAfterEmpty(cs[1..], j, f);
    }
  }

  lemma EchoThenHead(r: seq<byte>, cs: seq<seq<byte>>, e: seq<byte>, f: seq<byte>)
    requires cs != []
    ensures EchoThen(r, cs, e, f) <==>
            (r + cs[0] == e && CutsAt([], cs[1..], f)) || EchoThen(r + cs[0], cs[1..], e, f)
    ensures r + cs[0] == e && EchoThen(r + cs[0], cs[1..], e, f) ==> CutsAt([], cs[1..], f)
  {
    if EchoThen(r, cs, e, f) {
      EchoThenSplit(r, cs, e, f);
    }
    if r + cs[0] == e && CutsAt([], cs[1..], f) {
      EchoFirst(r, cs, e, f);
    }
    if EchoThen(r + cs[0], cs[1..], e, f) {
      EchoLater(r, cs, e, f);
    }
  }

  /** The stream from r is the echo e up to a chunk boundary, and fewer than eight bytes after it. */
  ghost predicate EchoOnly(r: seq<byte>, cs: seq<seq<byte>>, e: seq<byte>) {
    CutsAt(r, cs, e) && |r + Flatten(cs)| < |e| + 8
  }

  lemma EchoOnlyHead(r: seq<byte>, cs: seq<seq<byte>>, e: seq<byte>)
    requires cs != []
    ensures EchoOnly(r, cs, e) <==> (r + cs[0] == e && |Flatten(cs[1..])| < 8) || EchoOnly(r + cs[0], cs[1..], e)
  {
    CutsAtHead(r, cs, e);
    FlattenHead(cs);
  }

  /** The stream from r is the request itself and then the answer to it, with chunk boundaries at the end of
      each. */
  ghost predicate EchoAnswered(r: seq<byte>, cs: seq<seq<byte>>, q: Request) {
    exists f :: IsWriteResponse(q, f) && EchoThen(r, cs, q.frame, f)
  }

  /** The stream from r is the request itself up to a chunk boundary, and eight bytes or more after it that are
      not the answer up to a boundary. */
  ghost predicate EchoUnanswered(r: seq<byte>, cs: seq<seq<byte>>, q: Request) {
    CutsAt(r, cs, q.frame) && |r + Flatten(cs)| >= |q.frame| + 8 && !EchoAnswered(r, cs, q)
  }

  lemma AnsweredIsCut(r: seq<byte>, cs: seq<seq<byte>>, q: Request)
    requires EchoAnswered(r, cs, q)
    ensures CutsAt(r, cs, q.frame) && |r + Flatten(cs)| >= |q.frame| + 8
  {
    var f :| IsWriteResponse(q, f) && EchoThen(r, cs, q.frame, f);
    var j :| 0 < j <= |cs| && r + Flatten(cs[..j]) == q.frame && CutsAt([], cs[j..], f);
    CutIsInside([], cs[j..], f);
    FlattenParts(cs, j);
  }

  lemma {:induction false} FlattenParts(cs: seq<seq<byte>>, j: nat)
    requires j <= |cs|
    ensures Flatten(cs) == Flatten(cs[..j]) + Flatten(cs[j..])
    decreases j
  {
    if j > 0 {
      FlattenHead(cs);
      FlattenParts(cs[1..], j - 1);
      FlattenHead(cs[..j]);
      assert cs[..j][1..] == cs[1..][..j - 1] && cs[1..][j - 1..] == cs[j..];
    } else {
      assert cs[..0] == [] && cs[0..] == cs;
    }
  }

  lemma {:induction false} EchoSucceeds(q: Request, p: Progress, cs: seq<seq<byte>>)
    requires WellFormed(q) && q.code == PresetMultipleRegister && q.needConfirm
    requires !p.confirmed && !p.finished && |p.response| < |q.frame|
    ensures FirstFinish(q, p, cs) == Some(true) <==>
            exists f :: IsWriteResponse(q, f) && EchoThen(p.response, cs, q.frame, f)
    decreases |cs|
  {
    if cs != [] {
      var next, rest := Receive(q, p, cs[0]).next, cs[1..];
      var r := p.response + cs[0];
      EchoStep(q, p, cs[0]);
      forall f ensures EchoThen(p.response, cs, q.frame, f) <==>
                       (r == q.frame && CutsAt([], rest, f)) || EchoThen(r, rest, q.frame, f)
               ensures r == q.frame && EchoThen(r, rest, q.frame, f) ==> CutsAt([], rest, f) {
        EchoThenHead(p.response, cs, q.frame, f);
      }
      if r == q.frame {
        AnswerRun(q, next, rest);
      } else if |r| < |q.frame| {
        EchoSucceeds(q, next, rest);
      } else {
        forall f ensures !EchoThen(r, rest, q.frame, f) {
        }
      }
    }
  }

  lemma {:induction false} EchoWaits(q: Request, p: Progress, cs: seq<seq<byte>>)
    requires WellFormed(q) && q.code == PresetMultipleRegister && q.needConfirm
    requires !p.confirmed && !p.finished && |p.response| < |q.frame|
    ensures FirstFinish(q, p, cs) == None <==>
            |p.response + Flatten(cs)| < |q.frame| || EchoOnly(p.response, cs, q.frame)
    decreases |cs|
  {
    if cs != [] {
      var next, rest := Receive(q, p, cs[0]).next, cs[1..];
      EchoStep(q, p, cs[0]);
      FlattenHead(cs);
      EchoOnlyHead(p.response, cs, q.frame);
      var r := p.response + cs[0];
      if r == q.frame {
        AnswerRun(q, next, rest);
      } else if |r| < |q.frame| {
        EchoWaits(q, next, rest);
      } else {
        TooLong(r, rest, q.frame);
      }
    }
  }

  /** Once there are more bytes, no boundary comes at the end of the echo. */
  lemma TooLong(r: seq<byte>, cs: seq<seq<byte>>, e: seq<byte>)
    requires r != e && |r| >= |e|
    ensures !CutsAt(r, cs, e)
  {
    forall m | 0 < m <= |cs| ensures r + Flatten(cs[..m]) != e {
      assert (r + Flatten(cs[..m]))[..|r|] == r;
    }
  }

  /** A multiple write that asks for an echo succeeds exactly when the stream is the request itself
      followed by the eight-byte answer, with chunk boundaries at the end of each.  It goes on waiting exactly
      when there are fewer bytes than the request has, or the echo and fewer than eight; and it fails exactly
      when as many come without a boundary at the end of an echo, or eight after it without the answer. */
  lemma EchoRun(q: Request, p: Progress, cs: seq<seq<byte>>)
    requires WellFormed(q) && q.code == PresetMultipleRegister && q.needConfirm
    requires !p.confirmed && !p.finished && |p.response| < |q.frame|
    ensures FirstFinish(q, p, cs) == Some(true) <==> EchoAnswered(p.response, cs, q)
    ensures FirstFinish(q, p, cs) == None <==>
            |p.response + Flatten(cs)| < |q.frame| || EchoOnly(p.response, cs, q.frame)
    ensures FirstFinish(q, p, cs) == Some(false) <==>
            || (|p.response + Flatten(cs)| >= |q.frame| && !CutsAt(p.response, cs, q.frame))
            || EchoUnanswered(p.response, cs, q)
  {
    EchoSucceeds(q, p, cs);
    EchoWaits(q, p, cs);
    EchoOutcomes(p.response, cs, q);
    ThreeOutcomes(FirstFinish(q, p, cs));
  }

  lemma ThreeOutcomes(o: Option<bool>)
    ensures o == Some(false) <==> o != None && o != Some(true)
  {
    if o.Some? {
      var b := o.value;
      if b {
        assert o == Some(true);
      } else {
        assert o == Some(false);
      }
    }
  }

  /** Every stream answers the echo, is too short, or does neither, and only one of them. */
  lemma EchoOutcomes(r: seq<byte>, cs: seq<seq<byte>>, q: Request)
    ensures !(EchoAnswered(r, cs, q) && (|r + Flatten(cs)| < |q.frame| || EchoOnly(r, cs, q.frame)))
    ensures !EchoAnswered(r, cs, q) && !(|r + Flatten(cs)| < |q.frame| || EchoOnly(r, cs, q.frame)) <==>
            || (|r + Flatten(cs)| >= |q.frame| && !CutsAt(r, cs, q.frame))
            || EchoUnanswered(r, cs, q)
  {
    if EchoAnswered(r, cs, q) {
      AnsweredIsCut(r, cs, q);
    }
    if CutsAt(r, cs, q.frame) {
      CutIsInside(r, cs, q.frame);
    }
  }

  lemma CutIsInside(r: seq<byte>, cs: seq<seq<byte>>, e: seq<byte>)
    requires CutsAt(r, cs, e)
    ensures |e| <= |r + Flatten(cs)|
  {
    var m :| 0 < m <= |cs| && r + Flatten(cs[..m]) == e;
    FlattenGrows(cs, m);
  }

  /** A chunk that straddles the end of the echo is always rejected. */
  lemma {:induction false} StraddleRejected(q: Request, p: Progress, cs: seq<seq<byte>>, j: nat)
    requires WellFormed(q) && q.code == PresetMultipleRegister && q.needConfirm
    requires !p.confirmed && !p.finished && j < |cs|
    requires |p.response + Flatten(cs[..j])| < |q.frame| < |p.response + Flatten(cs[..j + 1])|
    ensures FirstFinish(q, p, cs) == Some(false)
    decreases |cs|
  {
    EchoStep(q, p, cs[0]);
    FlattenFrom(p.response, cs, j + 1);
    if j > 0 {
      FlattenFrom(p.response, cs, j);
      StraddleRejected(q, Receive(q, p, cs[0]).next, cs[1..], j - 1);
    }
  }
}
