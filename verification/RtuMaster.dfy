/**
  One Modbus RTU request and the reassembly of its response (class Modbus of
  src/modbus/modbus.cc and modbus.h): request frames, completion of a response that arrives in
  arbitrary chunks, validation, and decoding of the registers read.

  Bytes are `bv8` and an `unsigned short` is `bv16`; a register address used as a key of the
  values read is an integer below 0x10000.
 */
module RtuMaster {

  import opened Crc16
  import opened ErrorDetection

  type ushort = bv16
  type Address = n: int | 0 <= n < 0x10000

  datatype FunctionCode = ReadHoldingRegisters | PresetSingleRegister | PresetMultipleRegister {
    function Code(): byte {
      match this
      case ReadHoldingRegisters => 0x03
      case PresetSingleRegister => 0x06
      case PresetMultipleRegister => 0x10
    }
  }

  // ---------- frames ----------

  function WithCrc(body: seq<byte>): seq<byte> {
    body + [HighHalf(CrcOf(body)), LowHalf(CrcOf(body))]
  }

  /** Address and one 16-bit field: the request of 0x03, and both request and answer of 0x06. */
  function ShortFrame(slave: byte, code: FunctionCode, address: ushort, n: ushort): seq<byte> {
    WithCrc([slave, code.Code(), HighHalf(address), LowHalf(address), HighHalf(n), LowHalf(n)])
  }

  /** Registers on the wire, most significant byte first. */
  function Wire(values: seq<ushort>): seq<byte> {
    if values == [] then []
    else
      var n := |values| - 1;
      Wire(values[..n]) + [HighHalf(values[n]), LowHalf(values[n])]
  }

  /** The answer to 0x03 that carries `values`. */
  predicate IsReadResponse(slave: byte, values: seq<ushort>, r: seq<byte>) {
    && |r| == 2 * |values| + 5
    && r[0] == slave && r[1] == ReadHoldingRegisters.Code() && (r[2] as int) == 2 * |values|
    && r[3..|r| - 2] == Wire(values) && CarriesCrc(r)
  }

  /** The answer to 0x10: eight bytes with the address and the number of registers written. */
  predicate IsWriteResponse(q: Request, r: seq<byte>) {
    && |r| == 8
    && r[0] == q.slave && r[1] == q.code.Code() && Pair(r[2], r[3]) == q.address
    && (Pair(r[4], r[5]) as int) == |q.toWrite| && CarriesCrc(r)
  }

  /** The fields of a multiple write before its registers: the count is cut to sixteen bits, the
      byte count to eight. */
  function LongHeader(slave: byte, code: FunctionCode, address: ushort, count: nat): seq<byte> {
    [slave, code.Code(), HighHalf(address), LowHalf(address),
     EightBits(count / 256), EightBits(count), EightBits(2 * count)]
  }

  lemma NextByte(b: byte)
    requires b != 255
    ensures (b + 1) as int == b as int + 1
  {}

  /** A number below 256 as a byte. */
  function Byte(n: nat): (b: byte)
    requires n < 256
    ensures b as int == n
  {
    if n == 0 then 0
    else
      var b := Byte(n - 1);
      NextByte(b);
      b + 1
  }

  function EightBits(n: nat): (b: byte)
    ensures b as int == n % 256
  {
    Byte(n % 256)
  }

  function LongFrame(slave: byte, code: FunctionCode, address: ushort, values: seq<ushort>): seq<byte> {
    WithCrc(LongHeader(slave, code, address, |values|) + Wire(values))
  }

  lemma {:induction false} WireAt(values: seq<ushort>)
    ensures |Wire(values)| == 2 * |values|
    ensures forall k :: 0 <= k < |values| ==>
              Wire(values)[2 * k] == HighHalf(values[k]) && Wire(values)[2 * k + 1] == LowHalf(values[k])
  {
    if values != [] {
      WireAt(values[..|values| - 1]);
    }
  }

  lemma PairOfHalves(c: bv16)
    ensures Pair(HighHalf(c), LowHalf(c)) == c
  {}

  lemma HalvesOfPair(h: byte, l: byte)
    ensures HighHalf(Pair(h, l)) == h && LowHalf(Pair(h, l)) == l
  {}

  /** What is sent passes the receiver's check. */
  lemma WithCrcIsValid(body: seq<byte>)
    ensures CarriesCrc(WithCrc(body))
  {
    assert WithCrc(body)[..|body|] == body;
    PairOfHalves(CrcOf(body));
  }

  /** A valid frame is determined by what precedes its CRC. */
  lemma ValidIsWithCrc(f: seq<byte>)
    requires |f| >= 2
    ensures CarriesCrc(f) <==> f == WithCrc(f[..|f| - 2])
  {
    var c := CrcOf(f[..|f| - 2]);
    PairOfHalves(c);
    PairInjective(f[|f| - 2], f[|f| - 1], HighHalf(c), LowHalf(c));
    assert f == f[..|f| - 2] + [f[|f| - 2], f[|f| - 1]];
  }

  // ---------- what a request is, and how far its response has got ----------

  datatype Request = Request(
    slave: byte, code: FunctionCode, address: ushort, numberOrValue: ushort, toWrite: seq<ushort>,
    frame: seq<byte>, needConfirm: bool)

  datatype Progress = Progress(
    response: seq<byte>, confirmed: bool, completed: bool, finished: bool, values: map<Address, ushort>)

  /** Completion of a read: a byte count has arrived, and with it exactly the bytes it announces. */
  predicate ReadComplete(r: seq<byte>) {
    |r| >= 3 && |r| == (r[2] as int) + 5
  }

  /** `check_completed`: the state after one more chunk. */
  function Accumulate(q: Request, p: Progress, chunk: seq<byte>): Progress {
    var r := p.response + chunk;
    match q.code
    case ReadHoldingRegisters => p.(response := r, completed := ReadComplete(r))
    case PresetSingleRegister => p.(response := r, completed := |r| == |q.frame|)
    case PresetMultipleRegister =>
      if !q.needConfirm || p.confirmed then p.(response := r, completed := |r| >= 8)
      else if r == q.frame then p.(response := [], confirmed := true, completed := false)
      else p.(response := r, completed := |r| >= |q.frame|)
  }

  /** What the checks on a completed response amount to. */
  predicate Acceptable(q: Request, p: Progress)
    requires |p.response| >= 5
    requires q.code != ReadHoldingRegisters ==> |p.response| >= 8
  {
    var r := p.response;
    && r[0] == q.slave && r[1] == q.code.Code() && CarriesCrc(r)
    && match q.code
       case ReadHoldingRegisters => true
       case PresetSingleRegister => Pair(r[2], r[3]) == q.address && Pair(r[4], r[5]) == q.numberOrValue
       case PresetMultipleRegister =>
         p.confirmed && Pair(r[2], r[3]) == q.address && (Pair(r[4], r[5]) as int) == |q.toWrite| && |r| == 8
  }

  /** The first n words after the byte count; an odd byte count makes the last one borrow the
      first CRC byte. */
  function Words(r: seq<byte>, n: nat): (ws: seq<ushort>)
    requires 3 + 2 * n <= |r|
    ensures |ws| == n
  {
    seq(n, k requires 0 <= k < n => Pair(r[3 + 2 * k], r[4 + 2 * k]))
  }

  function Key(address: nat, k: nat): Address { (address + 1 + k) % 0x10000 }

  /** `std::map::insert` of each word under the addresses following `address`: a key already
      there keeps its value. */
  function Store(values: map<Address, ushort>, address: nat, ws: seq<ushort>): map<Address, ushort> {
    if ws == [] then values
    else
      var n := |ws| - 1;
      var before := Store(values, address, ws[..n]);
      if Key(address, n) in before then before else before[Key(address, n) := ws[n]]
  }

  /** The words a complete response carries; an odd byte count is rounded up. */
  function WordCount(r: seq<byte>): nat
    requires |r| >= 3
  {
    ((r[2] as int) + 1) / 2
  }

  /** The registers on record after a complete, acceptable response to a read. */
  function Recorded(values: map<Address, ushort>, address: nat, r: seq<byte>): map<Address, ushort>
    requires ReadComplete(r)
  {
    Store(values, address, Words(r, WordCount(r)))
  }

  /** Requests the two constructors make: a frame long enough that no access goes out of range. */
  predicate WellFormed(q: Request) {
    |q.frame| >= 8
  }

  /** The outcome of a call: the new state and the result. */
  datatype Outcome = Outcome(next: Progress, ok: bool)

  /** A completed response is checked and, if it answers a read, recorded. */
  function Conclude(q: Request, a: Progress): Outcome
    requires q.code == ReadHoldingRegisters ==> ReadComplete(a.response)
    requires q.code != ReadHoldingRegisters ==> |a.response| >= 8
  {
    var done := a.(completed := true, finished := true);
    if !Acceptable(q, a) then Outcome(done, false)
    else if q.code != ReadHoldingRegisters then Outcome(done, true)
    else Outcome(done.(values := Recorded(a.values, q.address as int, a.response)), true)
  }

  /** A call for a request that was made. */
  function Process(q: Request, p: Progress, chunk: seq<byte>): Outcome
    requires WellFormed(q)
  {
    var a := Accumulate(q, p, chunk);
    if a.completed then Conclude(q, a) else Outcome(a, true)
  }

  /** `receive_modbus_frame`. */
  function Receive(q: Request, p: Progress, chunk: seq<byte>): Outcome
    requires q.frame == [] || WellFormed(q)
  {
    if q.frame == [] then Outcome(p.(finished := true, completed := true), false) else Process(q, p, chunk)
  }

  /** A completed response is long enough to be read. */
  lemma CompletedIsLong(q: Request, p: Progress, chunk: seq<byte>)
    requires WellFormed(q) && Accumulate(q, p, chunk).completed
    ensures var a := Accumulate(q, p, chunk);
            if q.code == ReadHoldingRegisters then ReadComplete(a.response) else |a.response| >= 8
  {}

  lemma FailureFinishes(q: Request, p: Progress, chunk: seq<byte>)
    requires WellFormed(q) && !Process(q, p, chunk).ok
    ensures Process(q, p, chunk).next.completed && Process(q, p, chunk).next.finished
  {}

  // ---------- the class ----------

  /** The registers of a multiple write go behind its header. */
  method PushRegisters(header: seq<byte>, toWrite: seq<ushort>) returns (body: seq<byte>)
    ensures body == header + Wire(toWrite)
  {
    body := header;
    for i := 0 to |toWrite|
      invariant body == header + Wire(toWrite[..i])
    {
      body := body + [HighHalf(toWrite[i]), LowHalf(toWrite[i])];
      assert toWrite[..i + 1][..i] == toWrite[..i];
    }
    assert toWrite[..|toWrite|] == toWrite;
  }

  class Modbus {
    var slaveAddress: byte
    var functionCode: FunctionCode
    var addressData: ushort
    var numberOfOrValue: ushort
    var valuesToWrite: seq<ushort>
    var modbusFrame: seq<byte>
    var needBeConfirmed: bool

    var modbusFrameResponse: seq<byte>
    var confirmed: bool
    var completed: bool
    var finished: bool
    var values: map<Address, ushort>

    ghost function Asked(): Request reads this {
      Request(slaveAddress, functionCode, addressData, numberOfOrValue, valuesToWrite, modbusFrame, needBeConfirmed)
    }

    ghost function State(): Progress reads this {
      Progress(modbusFrameResponse, confirmed, completed, finished, values)
    }

    /** A read, a single write, or any request with one 16-bit field. */
    constructor Short(slave: byte, code: FunctionCode, address: ushort, n: ushort)
      ensures Asked() == ShortRequest(slave, code, address, n)
      ensures State() == Fresh(true)
      ensures IsShortRequest(modbusFrame, slave, code, address, n)
      ensures modbusFrameResponse == [] && confirmed && !needBeConfirmed && !completed && !finished && values == map[]
    {
      ShortBytes(slave, code, address, n);
      var body := [slave, code.Code(), HighHalf(address), LowHalf(address), HighHalf(n), LowHalf(n)];
      var crc := Crc(body);
      slaveAddress, functionCode, addressData, numberOfOrValue, valuesToWrite := slave, code, address, n, [];
      needBeConfirmed := false;
      modbusFrameResponse, confirmed, completed, finished, values := [], true, false, false, map[];
      modbusFrame := body + [HighHalf(crc), LowHalf(crc)];
    }

    /** A multiple write; `echo` asks for the request to be echoed before it is answered. */
    constructor Long(slave: byte, code: FunctionCode, address: ushort, toWrite: seq<ushort>, echo: bool)
      ensures Asked() == LongRequest(slave, code, address, toWrite, echo)
      ensures State() == Fresh(!echo)
      ensures IsLongRequest(modbusFrame, slave, code, address, toWrite)
      ensures modbusFrameResponse == [] && confirmed == !echo && needBeConfirmed == echo
      ensures !completed && !finished && values == map[]
    {
      LongBytes(slave, code, address, toWrite, echo);
      var header := [slave, code.Code(), HighHalf(address), LowHalf(address),
                     EightBits(|toWrite| / 256), EightBits(|toWrite|), EightBits(2 * |toWrite|)];
      var body := PushRegisters(header, toWrite);
      var crc := Crc(body);
      slaveAddress, functionCode, addressData, numberOfOrValue, valuesToWrite := slave, code, address, 0, toWrite;
      needBeConfirmed := echo;
      modbusFrameResponse, confirmed, completed, finished, values := [], !echo, false, false, map[];
      modbusFrame := body + [HighHalf(crc), LowHalf(crc)];
    }

    method CheckCompleted(chunk: seq<byte>) returns (done: bool)
      modifies `modbusFrameResponse, `confirmed
      ensures State().(completed := done) == Accumulate(Asked(), old(State()), chunk)
      ensures done == Accumulate(Asked(), old(State()), chunk).completed
    {
      done := false;
      modbusFrameResponse := modbusFrameResponse + chunk;
      if functionCode == ReadHoldingRegisters {
        if |modbusFrameResponse| >= 3 {
          var bytes := modbusFrameResponse[2] as int;
          if |modbusFrameResponse| - 2 == bytes + 3 {
            done := true;
          }
        }
      } else if functionCode == PresetSingleRegister {
        if |modbusFrameResponse| == |modbusFrame| {
          done := true;
        }
      } else {
        if !needBeConfirmed || (needBeConfirmed && confirmed) {
          if |modbusFrameResponse| >= 8 {
            done := true;
          }
        }
        if needBeConfirmed && !confirmed {
          if |modbusFrameResponse| == |modbusFrame| {
            if modbusFrameResponse == modbusFrame {
              confirmed := true;
              modbusFrameResponse := [];
            } else {
              done := true;
            }
          } else if |modbusFrameResponse| > |modbusFrame| {
            done := true;
          }
        }
      }
    }

    /** The checks on a completed response. */
    method Validate() returns (frameOk: bool)
      requires |modbusFrameResponse| >= 5
      requires functionCode != ReadHoldingRegisters ==> |modbusFrameResponse| >= 8
      ensures frameOk == Acceptable(Asked(), State())
    {
      frameOk := true;
      var valid := CheckCrc(modbusFrameResponse);
      if modbusFrameResponse[0] != slaveAddress || modbusFrameResponse[1] != functionCode.Code() || !valid {
        frameOk := false;
      } else if functionCode != ReadHoldingRegisters {
        var address := Pair(modbusFrameResponse[2], modbusFrameResponse[3]);
        var field := Pair(modbusFrameResponse[4], modbusFrameResponse[5]);
        if functionCode == PresetSingleRegister {
          if address != addressData || field != numberOfOrValue {
            frameOk := false;
          }
        } else if !confirmed {
          frameOk := false;
        } else if address != addressData || (field as int) != |valuesToWrite| || |modbusFrameResponse| != 8 {
          frameOk := false;
        }
      }
    }

    /** Every access is in range, so the program's catch clause is never entered. */
    method ReceiveModbusFrame(chunk: seq<byte>) returns (frameOk: bool)
      requires modbusFrame == [] || WellFormed(Asked())
      modifies `modbusFrameResponse, `confirmed, `completed, `finished, `values
      ensures Outcome(State(), frameOk) == Receive(Asked(), old(State()), chunk)
      ensures modbusFrame == [] ==> !frameOk && completed && finished && values == old(values)
    {
      frameOk := true;
      if |modbusFrame| == 0 {
        frameOk := false;
      } else {
        frameOk := ProcessChunk(chunk);
        if !frameOk {
          FailureFinishes(Asked(), old(State()), chunk);
        }
      }
      if !frameOk {
        finished := true;
        completed := true;
      }
    }

    method ProcessChunk(chunk: seq<byte>) returns (frameOk: bool)
      requires WellFormed(Asked())
      modifies `modbusFrameResponse, `confirmed, `completed, `finished, `values
      ensures Outcome(State(), frameOk) == Process(Asked(), old(State()), chunk)
    {
      frameOk := true;
      completed := CheckCompleted(chunk);
      if completed {
        CompletedIsLong(Asked(), old(State()), chunk);
        frameOk := ConcludeFrame();
      }
    }

    method ConcludeFrame() returns (frameOk: bool)
      requires completed
      requires functionCode == ReadHoldingRegisters ==> ReadComplete(modbusFrameResponse)
      requires functionCode != ReadHoldingRegisters ==> |modbusFrameResponse| >= 8
      modifies `finished, `values
      ensures Outcome(State(), frameOk) == Conclude(Asked(), old(State()))
    {
      finished := true;
      frameOk := Validate();
      if frameOk && functionCode == ReadHoldingRegisters {
        var bytes := modbusFrameResponse[2] as int;
        if |modbusFrameResponse| - 2 != bytes + 3 {
          frameOk := false;
        } else {
          assert (bytes + 1) / 2 == WordCount(modbusFrameResponse);
          DecodeRegisters(addressData as int, bytes);
        }
      }
    }

    /** The registers read, stored under the addresses that follow the one asked for. */
    method DecodeRegisters(address: nat, bytes: nat)
      requires |modbusFrameResponse| == bytes + 5
      modifies `values
      ensures values == Store(old(values), address, Words(modbusFrameResponse, (bytes + 1) / 2))
    {
      var numReg := 0;
      var i := 3;
      while i < bytes + 3
        invariant i == 3 + 2 * numReg && numReg <= (bytes + 1) / 2
        invariant values == Store(old(values), address, Words(modbusFrameResponse, numReg))
      {
        var value := Pair(modbusFrameResponse[i], modbusFrameResponse[i + 1]);
        StoreStep(old(values), address, modbusFrameResponse, numReg, value);
        numReg := numReg + 1;
        var key := (address + numReg) % 0x10000;
        if key !in values {
          values := values[key := value];
        }
        i := i + 2;
      }
    }
  }

  lemma StoreStep(values: map<Address, ushort>, address: nat, r: seq<byte>, n: nat, w: ushort)
    requires 5 + 2 * n <= |r| && w == Pair(r[3 + 2 * n], r[4 + 2 * n])
    ensures var before, k := Store(values, address, Words(r, n)), (address + (n + 1)) % 0x10000;
            Store(values, address, Words(r, n + 1)) == if k in before then before else before[k := w]
  {
    var ws := Words(r, n + 1);
    assert ws[..n] == Words(r, n);
  }

  function Fresh(confirmed: bool): Progress {
    Progress([], confirmed, false, false, map[])
  }

  function ShortRequest(slave: byte, code: FunctionCode, address: ushort, n: ushort): (q: Request)
    ensures WellFormed(q)
  {
    Request(slave, code, address, n, [], ShortFrame(slave, code, address, n), false)
  }

  function LongRequest(slave: byte, code: FunctionCode, address: ushort, toWrite: seq<ushort>, echo: bool)
    : (q: Request)
    ensures WellFormed(q)
  {
    Request(slave, code, address, 0, toWrite, LongFrame(slave, code, address, toWrite), echo)
  }

  // ---------- the requests, byte by byte ----------

  /** Two bytes are a number with the most significant first. */
  lemma PairIsNumber(h: byte, l: byte)
    ensures Pair(h, l) == 256 * (h as bv16) + (l as bv16)
  {}

  /** The code of a request: 0x03, 0x06 or 0x10. */
  predicate CodeIs(code: FunctionCode, b: byte) {
    match code
    case ReadHoldingRegisters => b == 0x03
    case PresetSingleRegister => b == 0x06
    case PresetMultipleRegister => b == 0x10
  }

  /** Eight bytes: slave, function, address, field and CRC. */
  predicate IsShortRequest(f: seq<byte>, slave: byte, code: FunctionCode, address: ushort, n: ushort) {
    && |f| == 8 && f[0] == slave && CodeIs(code, f[1])
    && Pair(f[2], f[3]) == address && Pair(f[4], f[5]) == n && CarriesCrc(f)
  }

  /** Slave, function, address, the number of registers cut to sixteen bits, that of their bytes cut to eight, the
      registers, and CRC. */
  predicate IsLongRequest(f: seq<byte>, slave: byte, code: FunctionCode, address: ushort, toWrite: seq<ushort>) {
    && |f| == 9 + 2 * |toWrite| && f[0] == slave && CodeIs(code, f[1])
    && Pair(f[2], f[3]) == address && 256 * (f[4] as int) + (f[5] as int) == |toWrite| % 0x10000
    && f[6] as int == 2 * |toWrite| % 256
    && (forall i :: 0 <= i < |toWrite| ==> Pair(f[7 + 2 * i], f[8 + 2 * i]) == toWrite[i])
    && CarriesCrc(f)
  }

  /** The request of a read or a single write. */
  lemma ShortBytes(slave: byte, code: FunctionCode, address: ushort, n: ushort)
    ensures IsShortRequest(ShortRequest(slave, code, address, n).frame, slave, code, address, n)
  {
    PairOfHalves(address);
    PairOfHalves(n);
    WithCrcIsValid([slave, code.Code(), HighHalf(address), LowHalf(address), HighHalf(n), LowHalf(n)]);
  }

  /** The number of registers is cut to sixteen bits, that of their bytes to eight. */
  lemma HeaderBytes(slave: byte, code: FunctionCode, address: ushort, count: nat)
    ensures var h := LongHeader(slave, code, address, count);
            && |h| == 7 && h[0] == slave && CodeIs(code, h[1]) && Pair(h[2], h[3]) == address
            && 256 * (h[4] as int) + (h[5] as int) == count % 0x10000 && h[6] as int == 2 * count % 256
  {
    PairOfHalves(address);
    CountHalves(count, EightBits(count / 256) as int, EightBits(count) as int);
  }

  lemma CountHalves(count: nat, high: int, low: int)
    requires high == count / 256 % 256 && low == count % 256
    ensures 256 * high + low == count % 0x10000
  {
  }

  lemma FrameAt(header: seq<byte>, wire: seq<byte>, k: nat)
    requires |header| == 7 && k < |wire|
    ensures WithCrc(header + wire)[7 + k] == wire[k]
  {
  }

  lemma FrameParts(header: seq<byte>, toWrite: seq<ushort>)
    requires |header| == 7
    ensures var f := WithCrc(header + Wire(toWrite));
            && |f| == 9 + 2 * |toWrite| && f[..7] == header && CarriesCrc(f)
            && forall i :: 0 <= i < |toWrite| ==> Pair(f[7 + 2 * i], f[8 + 2 * i]) == toWrite[i]
  {
    var wire := Wire(toWrite);
    var f := WithCrc(header + wire);
    WireAt(toWrite);
    WithCrcIsValid(header + wire);
    forall i | 0 <= i < |toWrite| ensures Pair(f[7 + 2 * i], f[8 + 2 * i]) == toWrite[i] {
      FrameAt(header, wire, 2 * i);
      FrameAt(header, wire, 2 * i + 1);
      PairOfHalves(toWrite[i]);
    }
  }

  /** The request of a multiple write: its header, the registers and the CRC. */
  lemma LongBytes(slave: byte, code: FunctionCode, address: ushort, toWrite: seq<ushort>, echo: bool)
    ensures IsLongRequest(LongRequest(slave, code, address, toWrite, echo).frame, slave, code, address, toWrite)
  {
    var h := LongHeader(slave, code, address, |toWrite|);
    HeaderBytes(slave, code, address, |toWrite|);
    FrameParts(h, toWrite);
    var f := LongRequest(slave, code, address, toWrite, echo).frame;
    assert forall i :: 0 <= i < 7 ==> f[i] == f[..7][i] == h[i];
  }
}
