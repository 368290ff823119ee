/** The KC-TAPE file writer (`write_tap` in doc/examples/kc87/kc87com2tap.py):
    a 16-byte signature, a 129-byte header record describing a COM program,
    and the program bytes in 129-byte records, each a block number followed by
    128 payload bytes; the record holding the last program byte is numbered
    0xFF. Reading the input file and writing the output file are not part of
    this model: the program is a byte sequence and the result is the byte
    sequence written. `None` stands for the `struct.error` Python raises when
    a number does not fit its field. */
module KcTape {
  import opened Common

  /** The file signature: 0xC3 followed by the text "KC-TAPE by AF. ". */
  const Magic: seq<byte> := [0xC3, 0x4B, 0x43, 0x2D, 0x54, 0x41, 0x50, 0x45, 0x20, 0x62, 0x79, 0x20, 0x41, 0x46, 0x2E, 0x20]

  const SignatureText := "KC-TAPE by AF. "

  /** After its first byte the signature spells the text, one ASCII byte per character. */
  lemma MagicSpellsSignature()
    ensures |Magic| == 16 && Magic[0] == 0xC3
    ensures forall i :: 1 <= i < 16 ==> Magic[i] as int == SignatureText[i - 1] as int
  {
  }

  /** The file type "COM" in ASCII. */
  const FileType: seq<byte> := [0x43, 0x4F, 0x4D]

  /** The zero byte, as in the padding of `struct.pack`. */
  function Zeros(n: nat): (z: seq<byte>)
    ensures |z| == n
    ensures forall i :: 0 <= i < n ==> z[i] == 0
  {
    seq(n, _ => 0)
  }

  /** `struct.pack('Ns', s)`: `s` cut to `n` bytes or padded with zero bytes to `n`. */
  function Pad(s: seq<byte>, n: nat): (r: seq<byte>)
    ensures |r| == n
    ensures forall i :: 0 <= i < n ==> r[i] == if i < |s| then s[i] else 0
  {
    if n <= |s| then s[..n] else s + Zeros(n - |s|)
  }

  /** The range of `struct.pack('h', v)`, a signed 16-bit value. */
  predicate InInt16(v: int)
  {
    -0x8000 <= v < 0x8000
  }

  /** `struct.pack('h', v)` on a little-endian machine: two's complement, low byte first. */
  function Int16LE(v: int): (b: seq<byte>)
    requires InInt16(v)
    ensures |b| == 2
  {
    var u := if v < 0 then v + 0x10000 else v;
    [(u % 256) as byte, (u / 256) as byte]
  }

  /** Reads a little-endian signed 16-bit value; the partner of `Int16LE`. */
  function ReadInt16LE(lo: byte, hi: byte): int
  {
    var u := lo as int + 256 * hi as int;
    if u < 0x8000 then u else u - 0x10000
  }

  /** Every 16-bit address written reads back unchanged. */
  lemma Int16RoundTrip(v: int)
    requires InInt16(v)
    ensures ReadInt16LE(Int16LE(v)[0], Int16LE(v)[1]) == v
  {
    var u := if v < 0 then v + 0x10000 else v;
    NatAsByte(u % 256);
    NatAsByte(u / 256);
    var b := Int16LE(v);
    assert b[0] as int == u % 256 && b[1] as int == u / 256;
  }

  /** `struct.pack('b', v)`: a signed byte in two's complement; read back as
      a signed byte it is `v`. */
  function SignedByte(v: int): (b: byte)
    requires -0x80 <= v < 0x80
    ensures (if b as int < 0x80 then b as int else b as int - 0x100) == v
  {
    var u := if v < 0 then v + 0x100 else v;
    NatAsByte(u);
    u as byte
  }

  /** The address of the last program byte. */
  function EndAddress(load: int, size: nat): int
  {
    load + size - 1
  }

  /** The header record: block number, name, "COM", five zero bytes, 0x03, the
      load, end and start addresses, and zero bytes up to 129 bytes. */
  function Header(block: int, name: seq<byte>, load: int, end: int, start: int): (h: seq<byte>)
    requires -0x80 <= block < 0x80 && InInt16(load) && InInt16(end) && InInt16(start)
    ensures |h| == 129
    ensures h[0] == SignedByte(block)
    ensures h[1..9] == Pad(name, 8)
    ensures h[9..12] == FileType
    ensures h[12..17] == Zeros(5)
    ensures h[17] == 0x03
    ensures h[18..20] == Int16LE(load) && h[20..22] == Int16LE(end) && h[22..24] == Int16LE(start)
    ensures h[24..] == Zeros(105)
  {
    var h := [SignedByte(block)] + Pad(name, 8) + FileType + Zeros(2) + Zeros(3) + [0x03]
      + Int16LE(load) + Int16LE(end) + Int16LE(start) + [0x00] + Zeros(128 - 24);
    assert h[12..17] == Zeros(5);
    assert h[24..] == Zeros(105);
    h
  }

  /* ---------------------------------------------------------------------- */
  /* Data records                                                           */
  /* ---------------------------------------------------------------------- */

  /** Number of 128-byte reads that return data: the size divided by 128, rounded up. */
  function NumRecords(size: nat): nat
  {
    (size + 127) / 128
  }

  /** Where the read starting at `pos` stops. */
  function ChunkEnd(size: nat, pos: nat): nat
  {
    if pos + 128 <= size then pos + 128 else size
  }

  /** The `k`-th 128-byte piece of the program (shorter at the end). */
  function Chunk(data: seq<byte>, k: nat): seq<byte>
    requires 128 * k <= |data|
  {
    data[128 * k .. ChunkEnd(|data|, 128 * k)]
  }

  /** A record: its block number and the chunk padded to 128 bytes. */
  function Record(number: byte, chunk: seq<byte>): (r: seq<byte>)
    ensures |r| == 129
  {
    [number] + Pad(chunk, 128)
  }

  /** The data loop from byte `pos` on, with `block` the next block number:
      the record that reaches the end of the program is numbered 0xFF. */
  function DataRecords(data: seq<byte>, block: int, pos: nat): (r: Option<seq<seq<byte>>>)
    requires pos <= |data|
    decreases |data| - pos
  {
    if pos == |data| then Some([])
    else
      var end := ChunkEnd(|data|, pos);
      var number := if end == |data| then 0xFF else block;
      if number < 0 || 0xFF < number then None
      else
        match DataRecords(data, number + 1, end)
        case None => None
        case Some(rest) => Some([Record(number as byte, data[pos..end])] + rest)
  }

  /** The data loop as `write_tap` writes it: it recognises the last record by
      `128 * (block - 1) + len(data) == size`, which counts the bytes read so
      far correctly only when the data blocks are numbered from 1. */
  function DataRecordsAsWritten(data: seq<byte>, block: int, pos: nat): (r: Option<seq<seq<byte>>>)
    requires pos <= |data|
    decreases |data| - pos
  {
    if pos == |data| then Some([])
    else
      var end := ChunkEnd(|data|, pos);
      var number := if 128 * (block - 1) + (end - pos) == |data| then 0xFF else block;
      if number < 0 || 0xFF < number then None
      else
        match DataRecordsAsWritten(data, number + 1, end)
        case None => None
        case Some(rest) => Some([Record(number as byte, data[pos..end])] + rest)
  }

  /** The records one after another. */
  function Flatten(rs: seq<seq<byte>>): seq<byte>
  {
    if |rs| == 0 then [] else Flatten(rs[..|rs| - 1]) + rs[|rs| - 1]
  }

  /** All pieces have length `len`. */
  predicate Uniform(rs: seq<seq<byte>>, len: nat)
  {
    forall i :: 0 <= i < |rs| ==> |rs[i]| == len
  }

  lemma {:induction false} FlattenLength(rs: seq<seq<byte>>, len: nat)
    requires Uniform(rs, len)
    ensures |Flatten(rs)| == len * |rs|
  {
    if |rs| > 0 {
      FlattenLength(rs[..|rs| - 1], len);
    }
  }

  /** Flattening the first `m` pieces gives a prefix of flattening them all. */
  lemma {:induction false} FlattenPrefix(rs: seq<seq<byte>>, m: nat)
    requires m <= |rs|
    ensures |Flatten(rs[..m])| <= |Flatten(rs)|
    ensures Flatten(rs)[..|Flatten(rs[..m])|] == Flatten(rs[..m])
  {
    if m < |rs| {
      var init := rs[..|rs| - 1];
      FlattenPrefix(init, m);
      assert init[..m] == rs[..m];
    } else {
      assert rs[..m] == rs;
    }
  }

  /** Flattening pieces of one length puts piece `k` at offset `len * k`. */
  lemma FlattenPiece(rs: seq<seq<byte>>, len: nat, k: nat)
    requires Uniform(rs, len) && k < |rs|
    ensures len * k + len <= |Flatten(rs)|
    ensures Flatten(rs)[len * k .. len * k + len] == rs[k]
  {
    var before := rs[..k];
    var upTo := rs[..k + 1];
    assert upTo[..k] == before && upTo[k] == rs[k];
    assert Flatten(upTo) == Flatten(before) + rs[k];
    FlattenLength(before, len);
    FlattenPrefix(rs, k + 1);
    var off := |Flatten(before)|;
    assert Flatten(rs)[off .. off + len] == Flatten(upTo)[off .. off + len];
  }

  /* ---------------------------------------------------------------------- */
  /* The tape                                                               */
  /* ---------------------------------------------------------------------- */

  /** `write_tap` with header block `block` and data blocks numbered from
      `block + 1` on, with the last-record test of `DataRecords`. */
  function WriteTapFrom(name: seq<byte>, load: int, start: int, data: seq<byte>, block: int): (r: Option<seq<byte>>)
  {
    var end := EndAddress(load, |data|);
    if !(-0x80 <= block < 0x80 && InInt16(load) && InInt16(end) && InInt16(start)) then None
    else
      match DataRecords(data, block + 1, 0)
      case None => None
      case Some(records) => Some(Magic + Header(block, name, load, end, start) + Flatten(records))
  }

  /** `write_tap` as written, with its own last-record test. */
  function WriteTapFromAsWritten(name: seq<byte>, load: int, start: int, data: seq<byte>, block: int): (r: Option<seq<byte>>)
  {
    var end := EndAddress(load, |data|);
    if !(-0x80 <= block < 0x80 && InInt16(load) && InInt16(end) && InInt16(start)) then None
    else
      match DataRecordsAsWritten(data, block + 1, 0)
      case None => None
      case Some(records) => Some(Magic + Header(block, name, load, end, start) + Flatten(records))
  }

  /** `write_tap` as the command line calls it: header block 0, data blocks from 1. */
  function WriteTap(name: seq<byte>, load: int, start: int, data: seq<byte>): Option<seq<byte>>
  {
    WriteTapFrom(name, load, start, data, 0)
  }

  /** Block number of record `k` of `n` when the data blocks start at `first`. */
  function RecordNumber(first: int, k: nat, n: nat): int
  {
    if k + 1 == n then 0xFF else first + k
  }

  /** The 129 bytes of data record `k` of a tape. */
  function RecordSlot(tape: seq<byte>, k: nat): seq<byte>
    requires 145 + 129 * k + 129 <= |tape|
  {
    tape[145 + 129 * k .. 145 + 129 * k + 129]
  }

  /** A read at a multiple of 128 below the size is the `j`-th of `NumRecords`,
      and it reaches the end exactly when it is the last one. */
  lemma ChunkIndex(size: nat, j: nat)
    ensures 128 * j < size <==> j < NumRecords(size)
    ensures 128 * j < size ==> (ChunkEnd(size, 128 * j) == size <==> j + 1 == NumRecords(size))
    ensures 128 * j < size && ChunkEnd(size, 128 * j) < size ==> ChunkEnd(size, 128 * j) == 128 * (j + 1)
  {
  }

  /** `rs` are the records `j .. n-1` of the program, numbered as when the
      data blocks start at `first`, each in a 129-byte slot. */
  predicate ShapedFrom(data: seq<byte>, first: int, n: nat, j: nat, rs: seq<seq<byte>>)
  {
    && j + |rs| == n
    && forall i :: 0 <= i < |rs| ==>
         (&& |rs[i]| == 129
          && 128 * (j + i) <= |data|
          && rs[i][0] as int == RecordNumber(first, j + i, n)
          && rs[i][1..] == Pad(Chunk(data, j + i), 128))
  }

  /** The loop started at read `j` with block number `first + j` fails exactly
      when a record before the last would need a number outside 0 .. 0xFF. */
  lemma {:induction false} DataRecordsSucceeds(data: seq<byte>, first: int, n: nat, j: nat)
    requires n == NumRecords(|data|) && 128 * j <= |data|
    ensures j <= n
    ensures DataRecords(data, first + j, 128 * j).Some? <==> (n <= j + 1 || (0 <= first + j && first + n - 2 <= 0xFF))
    decreases |data| - 128 * j
  {
    ChunkIndex(|data|, j);
    if 128 * j < |data| {
      var end := ChunkEnd(|data|, 128 * j);
      if end < |data| {
        assert end == 128 * (j + 1);
        if 0 <= first + j <= 0xFF {
          DataRecordsSucceeds(data, first, n, j + 1);
          assert first + (j + 1) == (first + j) + 1;
        }
      }
    }
  }

  /** A record's first byte is its number and the rest its padded chunk. */
  lemma RecordFields(number: int, chunk: seq<byte>)
    requires 0 <= number < 256
    ensures Record(number as byte, chunk)[0] as int == number
    ensures Record(number as byte, chunk)[1..] == Pad(chunk, 128)
  {
    NatAsByte(number);
  }

  /** Record `j` in front of the records `j + 1 .. n-1` gives the records `j .. n-1`. */
  lemma ShapedCons(data: seq<byte>, first: int, n: nat, j: nat, rec: seq<byte>, rest: seq<seq<byte>>)
    requires 128 * j <= |data| && ShapedFrom(data, first, n, j + 1, rest)
    requires |rec| == 129 && rec[0] as int == RecordNumber(first, j, n) && rec[1..] == Pad(Chunk(data, j), 128)
    ensures ShapedFrom(data, first, n, j, [rec] + rest)
  {
    var r := [rec] + rest;
    forall i | 0 <= i < |r|
      ensures && |r[i]| == 129
              && 128 * (j + i) <= |data|
              && r[i][0] as int == RecordNumber(first, j + i, n)
              && r[i][1..] == Pad(Chunk(data, j + i), 128)
    {
      if i > 0 {
        assert r[i] == rest[i - 1];
        assert j + i == (j + 1) + (i - 1);
      }
    }
  }

  /** When it succeeds, the loop started at read `j` yields the records
      `j .. n-1`, numbered `RecordNumber`. */
  lemma {:induction false} DataRecordsContent(data: seq<byte>, first: int, n: nat, j: nat)
    requires n == NumRecords(|data|) && 128 * j <= |data|
    requires DataRecords(data, first + j, 128 * j).Some?
    ensures ShapedFrom(data, first, n, j, DataRecords(data, first + j, 128 * j).value)
    decreases |data| - 128 * j
  {
    ChunkIndex(|data|, j);
    if 128 * j < |data| {
      var pos := 128 * j;
      var end := ChunkEnd(|data|, pos);
      var chunk := data[pos..end];
      assert chunk == Chunk(data, j);
      if end == |data| {
        assert DataRecords(data, 0x100, end) == Some([]);
        var rec := Record(0xFF, chunk);
        RecordFields(0xFF, chunk);
        ShapedCons(data, first, n, j, rec, []);
        assert DataRecords(data, first + j, pos).value == [rec] + [];
      } else {
        var number := first + j;
        assert first + (j + 1) == number + 1;
        DataRecordsContent(data, first, n, j + 1);
        var rest := DataRecords(data, number + 1, end).value;
        var rec := Record(number as byte, chunk);
        RecordFields(number, chunk);
        ShapedCons(data, first, n, j, rec, rest);
        assert DataRecords(data, first + j, pos).value == [rec] + rest;
      }
    }
  }

  /** Whether the tape can be written: the header block, the three addresses
      and every block number before the last fit their fields. */
  predicate Writable(load: int, start: int, size: nat, block: int)
  {
    var n := NumRecords(size);
    && -0x80 <= block < 0x80 && InInt16(load) && InInt16(EndAddress(load, size)) && InInt16(start)
    && (n <= 1 || (0 <= block + 1 && block + n - 1 <= 0xFF))
  }

  /** The tape: the signature, the header, and `NumRecords` data records
      numbered `block + 1`, `block + 2`, ... except for the last one, which is
      numbered 0xFF, each holding its 128-byte piece of the program. */
  predicate TapeShaped(tape: seq<byte>, name: seq<byte>, load: int, start: int, data: seq<byte>, block: int)
  {
    var n := NumRecords(|data|);
    var end := EndAddress(load, |data|);
    && -0x80 <= block < 0x80 && InInt16(load) && InInt16(end) && InInt16(start)
    && |tape| == 16 + 129 + 129 * n
    && tape[..16] == Magic
    && tape[16..145] == Header(block, name, load, end, start)
    && forall k :: 0 <= k < n ==>
         (&& 128 * k <= |data|
          && RecordSlot(tape, k)[0] as int == RecordNumber(block + 1, k, n)
          && RecordSlot(tape, k)[1..] == Pad(Chunk(data, k), 128))
  }

  /** `write_tap` fails exactly when some field does not fit. */
  lemma TapeSucceeds(name: seq<byte>, load: int, start: int, data: seq<byte>, block: int)
    ensures WriteTapFrom(name, load, start, data, block).Some? <==> Writable(load, start, |data|, block)
  {
    DataRecordsSucceeds(data, block + 1, NumRecords(|data|), 0);
  }

  /** Record `k` of a tape is piece `k` of the flattened records. */
  lemma SlotOfTape(prefix: seq<byte>, records: seq<seq<byte>>, k: nat)
    requires |prefix| == 145 && Uniform(records, 129) && k < |records|
    ensures 145 + 129 * k + 129 <= |prefix + Flatten(records)|
    ensures RecordSlot(prefix + Flatten(records), k) == records[k]
  {
    FlattenPiece(records, 129, k);
    var tape := prefix + Flatten(records);
    assert tape[145..] == Flatten(records);
    assert RecordSlot(tape, k) == tape[145..][129 * k .. 129 * k + 129];
  }

  /** The signature and header sit at the front of the tape. */
  lemma TapeParts(m: seq<byte>, h: seq<byte>, f: seq<byte>)
    requires |m| == 16 && |h| == 129
    ensures |m + h + f| == 145 + |f|
    ensures (m + h + f)[..16] == m && (m + h + f)[16..145] == h
    ensures m + h + f == (m + h) + f
  {
  }

  /** Every tape `write_tap` writes has the layout of `TapeShaped`. */
  lemma TapeContent(name: seq<byte>, load: int, start: int, data: seq<byte>, block: int)
    requires WriteTapFrom(name, load, start, data, block).Some?
    ensures TapeShaped(WriteTapFrom(name, load, start, data, block).value, name, load, start, data, block)
  {
    var n := NumRecords(|data|);
    var end := EndAddress(load, |data|);
    DataRecordsContent(data, block + 1, n, 0);
    var records := DataRecords(data, block + 1, 0).value;
    assert Uniform(records, 129);
    var header := Header(block, name, load, end, start);
    var prefix := Magic + header;
    var tape := WriteTapFrom(name, load, start, data, block).value;
    assert tape == Magic + header + Flatten(records);
    FlattenLength(records, 129);
    TapeParts(Magic, header, Flatten(records));
    forall k | 0 <= k < n
      ensures && 128 * k <= |data|
              && RecordSlot(tape, k)[0] as int == RecordNumber(block + 1, k, n)
              && RecordSlot(tape, k)[1..] == Pad(Chunk(data, k), 128)
    {
      var rec := records[k];
      assert rec[0] as int == RecordNumber(block + 1, 0 + k, n) && rec[1..] == Pad(Chunk(data, 0 + k), 128);
      SlotOfTape(prefix, records, k);
      assert RecordSlot(tape, k) == rec;
    }
  }

  /** The command line's tape: data blocks 1, 2, 3, ..., the last one 0xFF;
      it is written exactly when the addresses fit and there are at most 256
      records. */
  lemma DefaultTape(name: seq<byte>, load: int, start: int, data: seq<byte>)
    ensures var n := NumRecords(|data|);
      var r := WriteTap(name, load, start, data);
      && (r.Some? <==> InInt16(load) && InInt16(EndAddress(load, |data|)) && InInt16(start) && n <= 0x100)
      && (r.Some? ==> (&& |r.value| == 16 + 129 + 129 * n
                       && forall k :: 0 <= k < n ==> RecordSlot(r.value, k)[0] as int == RecordNumber(1, k, n)))
  {
    TapeSucceeds(name, load, start, data, 0);
    if WriteTap(name, load, start, data).Some? {
      TapeContent(name, load, start, data, 0);
    }
  }

  /** An empty program gives just the signature and the header. */
  lemma EmptyProgram(name: seq<byte>, load: int, start: int)
    requires InInt16(load) && InInt16(load - 1) && InInt16(start)
    ensures WriteTap(name, load, start, []) == Some(Magic + Header(0, name, load, load - 1, start))
  {
    assert DataRecords([], 1, 0) == Some([]);
    assert Flatten([]) == [];
    assert Magic + Header(0, name, load, load - 1, start) + [] == Magic + Header(0, name, load, load - 1, start);
  }

  /** The `k`-th 128 bytes of a payload. */
  function PayloadPiece(p: seq<byte>, k: nat): seq<byte>
    requires 128 * k + 128 <= |p|
  {
    p[128 * k .. 128 * k + 128]
  }

  /** Reads the 128 payload bytes of each of the `n` records of a tape. */
  function ReadPayload(tape: seq<byte>, n: nat): (p: seq<byte>)
    requires 145 + 129 * n <= |tape|
    ensures |p| == 128 * n
    ensures forall k :: 0 <= k < n ==> PayloadPiece(p, k) == RecordSlot(tape, k)[1..]
  {
    var pieces := seq(n, k requires 0 <= k < n => RecordSlot(tape, k)[1..]);
    assert Uniform(pieces, 128);
    FlattenLength(pieces, 128);
    assert forall k :: 0 <= k < n ==> PayloadPiece(Flatten(pieces), k) == RecordSlot(tape, k)[1..] by {
      forall k | 0 <= k < n
        ensures PayloadPiece(Flatten(pieces), k) == RecordSlot(tape, k)[1..]
      {
        FlattenPiece(pieces, 128, k);
      }
    }
    Flatten(pieces)
  }

  lemma PieceIndex(p: seq<byte>, k: nat, t: nat)
    requires 128 * k + 128 <= |p| && t < 128
    ensures PayloadPiece(p, k)[t] == p[128 * k + t]
  {
  }

  /** Payload byte `i` is program byte `i`, or zero past the end, when the
      record holding it carries its piece of the program. */
  lemma PayloadByte(tape: seq<byte>, data: seq<byte>, n: nat, i: nat)
    requires n == NumRecords(|data|) && 145 + 129 * n <= |tape| && i < 128 * n
    requires 128 * (i / 128) <= |data|
    requires RecordSlot(tape, i / 128)[1..] == Pad(Chunk(data, i / 128), 128)
    ensures ReadPayload(tape, n)[i] == if i < |data| then data[i] else 0
  {
    var p := ReadPayload(tape, n);
    var k, t := i / 128, i % 128;
    assert i == 128 * k + t && k < n;
    PieceIndex(p, k, t);
    var c := Chunk(data, k);
    assert PayloadPiece(p, k) == Pad(c, 128);
    assert |c| == ChunkEnd(|data|, 128 * k) - 128 * k;
    if i < |data| {
      assert t < |c| && c[t] == data[i];
    } else {
      assert |c| <= t;
    }
  }

  /** Reading the payloads back gives the program followed by zero bytes. */
  lemma PayloadRoundTrip(name: seq<byte>, load: int, start: int, data: seq<byte>, block: int)
    requires WriteTapFrom(name, load, start, data, block).Some?
    ensures var tape := WriteTapFrom(name, load, start, data, block).value;
      var n := NumRecords(|data|);
      && 145 + 129 * n <= |tape|
      && |data| <= 128 * n
      && ReadPayload(tape, n)[..|data|] == data
      && forall i :: |data| <= i < 128 * n ==> ReadPayload(tape, n)[i] == 0
  {
    var tape := WriteTapFrom(name, load, start, data, block).value;
    var n := NumRecords(|data|);
    TapeContent(name, load, start, data, block);
    ChunkIndex(|data|, n);
    var p := ReadPayload(tape, n);
    forall i | 0 <= i < 128 * n
      ensures p[i] == if i < |data| then data[i] else 0
    {
      var k := i / 128;
      assert 128 * k <= |data| && RecordSlot(tape, k)[1..] == Pad(Chunk(data, k), 128);
      PayloadByte(tape, data, n, i);
    }
    assert p[..|data|] == data;
  }

  /* ---------------------------------------------------------------------- */
  /* The last-record test                                                   */
  /* ---------------------------------------------------------------------- */

  /** With data blocks numbered from 1, the test as written recognises the
      last record exactly when the corrected test does. */
  lemma {:induction false} AsWrittenAgreesFromOne(data: seq<byte>, j: nat)
    requires 128 * j <= |data|
    ensures DataRecordsAsWritten(data, j + 1, 128 * j) == DataRecords(data, j + 1, 128 * j)
    decreases |data| - 128 * j
  {
    if 128 * j < |data| {
      var end := ChunkEnd(|data|, 128 * j);
      assert 128 * ((j + 1) - 1) + (end - 128 * j) == end;
      if end < |data| {
        ChunkIndex(|data|, j);
        AsWrittenAgreesFromOne(data, j + 1);
      }
    }
  }

  /** The command line's tapes are the same under both tests. */
  lemma AsWrittenDefaultBlock(name: seq<byte>, load: int, start: int, data: seq<byte>)
    ensures WriteTapFromAsWritten(name, load, start, data, 0) == WriteTap(name, load, start, data)
  {
    AsWrittenAgreesFromOne(data, 0);
  }

  /** With header block 1, a one-byte program gets a single data record
      numbered 2 instead of 0xFF: the test as written compares 128 + 1 with 1. */
  lemma AsWrittenMissesLastRecord()
    ensures WriteTapFromAsWritten([], 0, 0, [0x00], 1).Some?
    ensures WriteTapFromAsWritten([], 0, 0, [0x00], 1).value[16 + 129] == 2
    ensures WriteTapFrom([], 0, 0, [0x00], 1).Some?
    ensures WriteTapFrom([], 0, 0, [0x00], 1).value[16 + 129] == 0xFF
  {
    var data: seq<byte> := [0x00];
    assert ChunkEnd(1, 0) == 1;
    assert DataRecordsAsWritten(data, 3, 1) == Some([]);
    var rec := Record(2, data[0..1]);
    assert [rec] + [] == [rec];
    assert DataRecordsAsWritten(data, 2, 0) == Some([rec]);
    assert Flatten([rec]) == rec by { assert [rec][..0] == []; }
    assert DataRecords(data, 0x100, 1) == Some([]);
    var last := Record(0xFF, data[0..1]);
    assert [last] + [] == [last];
    assert DataRecords(data, 2, 0) == Some([last]);
    assert Flatten([last]) == last by { assert [last][..0] == []; }
  }
}
