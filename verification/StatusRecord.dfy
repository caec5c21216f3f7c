/** The supervisor's fixed-width status record: network byte order, two's complement, carried over a
    pipe whose writes and reads may be cut anywhere. */
module StatusRecord {
  import opened Seqs

  type Bytes = seq<nat>

  datatype Status = Status(waitStatus: int, execError: int, cpuMicroseconds: int,
                           hardLimit: int, hardObserved: int, setupError: int)

  const MAGIC: Bytes := [0x4D, 0x54, 0x32, 0x36]
  const SIZE: nat := 36

  function Power(n: nat): (p: nat)
    ensures p > 0
  {
    if n == 0 then 1 else 256 * Power(n - 1)
  }

  // ----- Unsigned integers, most significant byte first -------------------------------------------

  function ToBytes(v: nat, n: nat): (b: Bytes)
    ensures |b| == n
  {
    if n == 0 then [] else ToBytes(v / 256, n - 1) + [v % 256]
  }

  function FromBytes(b: Bytes): nat {
    if b == [] then 0 else FromBytes(b[..|b| - 1]) * 256 + b[|b| - 1]
  }

  lemma {:induction false} BytesRoundTrip(v: nat, n: nat)
    requires v < Power(n)
    ensures FromBytes(ToBytes(v, n)) == v
    decreases n
  {
    if n > 0 {
      BytesRoundTrip(v / 256, n - 1);
      assert ToBytes(v, n)[..n - 1] == ToBytes(v / 256, n - 1);
    }
  }

  lemma {:induction false} BytesAreBytes(v: nat, n: nat)
    ensures forall i :: 0 <= i < n ==> ToBytes(v, n)[i] < 256
    decreases n
  {
    if n > 0 { BytesAreBytes(v / 256, n - 1); }
  }

  // ----- Two's complement ---------------------------------------------------------------------------

  /** A signed field of `n` bytes holds -256^n/2 up to 256^n/2 - 1. */
  predicate Fits(v: int, n: nat) { -(Power(n) as int) <= 2 * v < Power(n) }

  function PackSigned(v: int, n: nat): (b: Bytes)
    requires Fits(v, n)
    ensures |b| == n
  {
    ToBytes(if v < 0 then v + Power(n) else v, n)
  }

  function UnpackSigned(b: Bytes): int {
    var u := FromBytes(b);
    if 2 * u >= Power(|b|) then u - Power(|b|) else u
  }

  lemma SignedRoundTrip(v: int, n: nat)
    requires Fits(v, n)
    ensures UnpackSigned(PackSigned(v, n)) == v
  {
    BytesRoundTrip(if v < 0 then v + Power(n) else v, n);
  }

  // ----- The record ----------------------------------------------------------------------------------

  predicate InRange(s: Status) {
    && Fits(s.waitStatus, 4) && Fits(s.execError, 4) && Fits(s.cpuMicroseconds, 8)
    && Fits(s.hardLimit, 4) && Fits(s.hardObserved, 8) && Fits(s.setupError, 4)
  }

  /** `struct.pack("!4siiqiqi", ...)`. */
  function Pack(s: Status): (b: Bytes)
    requires InRange(s)
    ensures |b| == SIZE
  {
    MAGIC + PackSigned(s.waitStatus, 4) + PackSigned(s.execError, 4) + PackSigned(s.cpuMicroseconds, 8)
    + PackSigned(s.hardLimit, 4) + PackSigned(s.hardObserved, 8) + PackSigned(s.setupError, 4)
  }

  /** Unpacking, and the magic check; nothing but a whole record with the right magic is accepted. */
  function Unpack(b: Bytes): Option<Status> {
    if |b| != SIZE || b[..4] != MAGIC then None
    else Some(Status(
      UnpackSigned(b[4..8]), UnpackSigned(b[8..12]), UnpackSigned(b[12..20]),
      UnpackSigned(b[20..24]), UnpackSigned(b[24..32]), UnpackSigned(b[32..36])))
  }

  lemma PackedFields(s: Status)
    requires InRange(s)
    ensures Pack(s)[..4] == MAGIC
    ensures Pack(s)[4..8] == PackSigned(s.waitStatus, 4) && Pack(s)[8..12] == PackSigned(s.execError, 4)
    ensures Pack(s)[12..20] == PackSigned(s.cpuMicroseconds, 8) && Pack(s)[20..24] == PackSigned(s.hardLimit, 4)
    ensures Pack(s)[24..32] == PackSigned(s.hardObserved, 8) && Pack(s)[32..36] == PackSigned(s.setupError, 4)
  {
  }

  /** Packing then unpacking is the identity on every in-range record. */
  lemma RecordRoundTrip(s: Status)
    requires InRange(s)
    ensures Unpack(Pack(s)) == Some(s)
  {
    PackedFields(s);
    SignedRoundTrip(s.waitStatus, 4);
    SignedRoundTrip(s.execError, 4);
    SignedRoundTrip(s.cpuMicroseconds, 8);
    SignedRoundTrip(s.hardLimit, 4);
    SignedRoundTrip(s.hardObserved, 8);
    SignedRoundTrip(s.setupError, 4);
  }

  /** A byte count past 2 GiB fits the eight-byte field and would not fit a four-byte one. */
  lemma LargeCountsNeedTheWideField(v: nat)
    requires 0x8000_0000 <= v < 0x8000_0000_0000_0000
    ensures Fits(v, 8) && !Fits(v, 4)
  {
    assert Power(4) == 0x1_0000_0000;
    assert Power(8) == 0x1_0000_0000_0000_0000;
  }

  lemma {:induction false} NoBytes(n: nat)
    ensures ToBytes(0, n) == seq(n, _ => 0)
    decreases n
  {
    if n > 0 { NoBytes(n - 1); }
  }

  lemma FourBytes(v: nat)
    requires v < 256
    ensures Fits(v, 4) && PackSigned(v, 4) == [0, 0, 0, v]
  {
    assert Power(4) == 0x1_0000_0000;
    NoBytes(3);
    assert ToBytes(v, 4) == ToBytes(0, 3) + [v];
  }

  lemma EightBytes(v: nat)
    requires v < 256
    ensures Fits(v, 8) && PackSigned(v, 8) == [0, 0, 0, 0, 0, 0, 0, v]
  {
    assert Power(8) == 0x1_0000_0000_0000_0000;
    NoBytes(7);
    assert ToBytes(v, 8) == ToBytes(0, 7) + [v];
  }

  /** A record of small fields, byte for byte: `MT26`, then each field most significant byte first. */
  lemma SmallRecord(wait: nat, exec: nat, cpu: nat, limit: nat, observed: nat, setup: nat)
    requires wait < 256 && exec < 256 && cpu < 256 && limit < 256 && observed < 256 && setup < 256
    ensures var s := Status(wait, exec, cpu, limit, observed, setup);
      InRange(s) && Pack(s) == [0x4D, 0x54, 0x32, 0x36] + [0, 0, 0, wait] + [0, 0, 0, exec]
        + [0, 0, 0, 0, 0, 0, 0, cpu] + [0, 0, 0, limit] + [0, 0, 0, 0, 0, 0, 0, observed] + [0, 0, 0, setup]
  {
    FourBytes(wait);
    FourBytes(exec);
    EightBytes(cpu);
    FourBytes(limit);
    EightBytes(observed);
    FourBytes(setup);
  }

  // ----- The pipe ------------------------------------------------------------------------------------

  /** What was written and not read yet. */
  class Pipe {
    var content: Bytes

    constructor ()
      ensures content == []
    {
      content := [];
    }

    /** One write takes some non-empty prefix. */
    method Write(b: Bytes) returns (n: nat)
      requires b != []
      modifies this
      ensures 0 < n <= |b| && content == old(content) + b[..n]
    {
      var k: int := *;
      n := if 0 < k <= |b| then k else |b|;
      content := content + b[..n];
    }

    /** One read gives some prefix of at most `max`, empty only at the end. */
    method Read(max: nat) returns (chunk: Bytes)
      requires max > 0
      modifies this
      ensures old(content) == chunk + content && |chunk| <= max
      ensures chunk == [] ==> old(content) == []
    {
      var k: int := *;
      var most := Min(max, |content|);
      var n := if 0 < k <= most then k else most;
      chunk := content[..n];
      content := content[n..];
    }
  }

  /** `_write_status`: writes on until the whole record is in the pipe. */
  method WriteStatus(pipe: Pipe, s: Status)
    requires InRange(s)
    modifies pipe
    ensures pipe.content == old(pipe.content) + Pack(s)
  {
    var payload := Pack(s);
    var offset: nat := 0;
    while offset < |payload|
      invariant offset <= |payload| && pipe.content == old(pipe.content) + payload[..offset]
    {
      var n := pipe.Write(payload[offset..]);
      assert payload[..offset] + payload[offset..][..n] == payload[..offset + n];
      offset := offset + n;
    }
    assert payload[..offset] == payload;
  }

  datatype Reading = Absent | Invalid | TimedOut | Record(status: Status)

  /** What the reader may answer for a stream; `sawMore` says that a 37th byte was there in time. */
  function Meaning(stream: Bytes, required: bool, sawMore: bool): Reading {
    if stream == [] && !required then Absent
    else if |stream| < SIZE || (|stream| > SIZE && sawMore) then Invalid
    else
      match Unpack(stream[..SIZE])
      case None => Invalid
      case Some(s) => Record(s)
  }

  /** `_read_linux_target_status`: however the stream is cut, the answer is its meaning, unless the
      deadline passes first. */
  method ReadStatus(pipe: Pipe, required: bool) returns (r: Reading, ghost sawMore: bool)
    modifies pipe
    ensures r == TimedOut || r == Meaning(old(pipe.content), required, sawMore)
  {
    sawMore := false;
    var payload: Bytes := [];
    var open := true;
    while |payload| < SIZE && open
      invariant |payload| <= SIZE && old(pipe.content) == payload + pipe.content
      invariant !open ==> pipe.content == []
      decreases SIZE - |payload|, open
    {
      var late: bool := *;
      if late { return TimedOut, sawMore; }
      var chunk := pipe.Read(SIZE - |payload|);
      if chunk == [] {
        open := false;
      } else {
        payload := payload + chunk;
      }
    }
    ghost var stream := old(pipe.content);
    assert |payload| == SIZE ==> payload == stream[..SIZE];
    if |payload| == SIZE {
      var blocked: bool := *; // nothing more has arrived yet
      if !blocked {
        var extra := pipe.Read(1);
        sawMore := extra != [];
        assert sawMore ==> |stream| > SIZE;
        payload := payload + extra;
      }
    } else {
      assert payload == stream;
    }
    assert |payload| == SIZE ==> payload == stream[..SIZE] && !sawMore;
    assert |payload| > SIZE ==> |stream| > SIZE && sawMore;
    if payload == [] && !required { return Absent, sawMore; }
    if |payload| != SIZE { return Invalid, sawMore; }
    match Unpack(payload)
    case None => r := Invalid;
    case Some(s) => r := Record(s);
  }

  /** End to end: a record written by the supervisor is what the parent reads, whatever the cuts. */
  method Exchange(s: Status, required: bool) returns (r: Reading)
    requires InRange(s)
    ensures r == TimedOut || r == Record(s)
  {
    var pipe := new Pipe();
    WriteStatus(pipe, s);
    assert pipe.content == Pack(s);
    ghost var sawMore: bool;
    r, sawMore := ReadStatus(pipe, required);
    assert Pack(s)[..SIZE] == Pack(s);
    RecordRoundTrip(s);
  }

  /** A short stream, or one with another magic, is never taken for a record. */
  lemma ShortOrForeignIsRejected(stream: Bytes, required: bool, sawMore: bool)
    ensures |stream| < SIZE ==> !Meaning(stream, required, sawMore).Record?
    ensures |stream| >= SIZE && stream[..4] != MAGIC ==> Meaning(stream, required, sawMore) == Invalid
    ensures Meaning(stream, required, sawMore) == Absent <==> stream == [] && !required
  {
    if |stream| >= SIZE { assert stream[..SIZE][..4] == stream[..4]; }
  }
}
