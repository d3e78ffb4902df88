// The file-backed log and blob store of the persistence layer, with the
// files modelled as byte sequences: the record format of the log, its
// `[start, end)` sequence-number range, recovery on open, snapshots and
// truncation, and the blob store as a key-value map.

module FileLogs {
  import D = Datums

  type byte = x: int | 0 <= x < 256

  /// The number of values of `u64`.
  const U64: nat := 0x1_0000_0000_0000_0000

  /// The errors of the log and the blob store. `UnexpectedEof` is what
  /// `read_exact` reports when too few bytes are left.
  datatype LogError =
    | Closed
    | UnexpectedEof
    | MetadataTooShort(len: nat)
    | SeekBeforeStart
    | SeqnoOverflow
    | InvalidRange(start: nat, end: nat)
    | InvalidSeqno(seqno: nat, start: nat, end: nat)
    | InvalidTruncation(upper: nat, start: nat, end: nat)
    | AlreadyExists(key: string)

  datatype LogResult<T> = Ok(value: T) | Err(error: LogError)

  // ---------------------------------------------------------------------
  // Little-endian integers

  function Pow256(k: nat): (p: nat)
    ensures p >= 1
  {
    if k == 0 then 1 else 256 * Pow256(k - 1)
  }

  /// The `k` little-endian bytes of `n`.
  function LeBytes(n: nat, k: nat): (bs: seq<byte>)
    ensures |bs| == k
  {
    if k == 0 then [] else [n % 256] + LeBytes(n / 256, k - 1)
  }

  /// The number that little-endian bytes stand for.
  function FromLe(bs: seq<byte>): nat {
    if bs == [] then 0 else bs[0] + 256 * FromLe(bs[1..])
  }

  /// `u64::to_le_bytes`.
  function Le64(n: nat): (bs: seq<byte>)
    requires n < U64
    ensures |bs| == 8
  {
    LeBytes(n, 8)
  }

  /// Reading back the bytes of a number gives the number.
  lemma {:induction false} LeRoundTrip(n: nat, k: nat)
    requires n < Pow256(k)
    ensures FromLe(LeBytes(n, k)) == n
  {
    if k > 0 {
      assert n / 256 < Pow256(k - 1);
      LeRoundTrip(n / 256, k - 1);
      assert LeBytes(n, k)[1..] == LeBytes(n / 256, k - 1);
    }
  }

  /// The number of `|bs|` bytes is below `256^|bs|`, and writing it back
  /// gives the same bytes.
  lemma {:induction false} FromLeRoundTrip(bs: seq<byte>)
    ensures FromLe(bs) < Pow256(|bs|)
    ensures LeBytes(FromLe(bs), |bs|) == bs
  {
    if bs != [] {
      FromLeRoundTrip(bs[1..]);
      var f := FromLe(bs[1..]);
      assert (bs[0] + 256 * f) % 256 == bs[0];
      assert (bs[0] + 256 * f) / 256 == f;
    }
  }

  lemma Le64RoundTrip(n: nat)
    requires n < U64
    ensures FromLe(Le64(n)) == n
  {
    assert Pow256(8) == U64;
    LeRoundTrip(n, 8);
  }

  // ---------------------------------------------------------------------
  // Records

  /// One write of the log: its sequence number and its data.
  datatype Record = Record(seqno: nat, data: seq<byte>)

  predicate Encodable(r: Record) {
    r.seqno < U64 && |r.data| < U64
  }

  /// A write as `write_sync` lays it out: the data's length, the data and
  /// the sequence number, both numbers as eight little-endian bytes.
  function EncodeRecord(r: Record): (bs: seq<byte>)
    requires Encodable(r)
    ensures |bs| == 16 + |r.data|
  {
    Le64(|r.data|) + r.data + Le64(r.seqno)
  }

  /// Records laid out one after another.
  function EncodeAll(rs: seq<Record>): seq<byte>
    requires forall k :: 0 <= k < |rs| ==> Encodable(rs[k])
  {
    if rs == [] then [] else EncodeRecord(rs[0]) + EncodeAll(rs[1..])
  }

  /// A decoded record and the bytes after it.
  datatype Decoded = Decoded(rec: Record, rest: seq<byte>)

  /// One record read from the front of `bs` as the snapshot loop reads it:
  /// a length, that many bytes of data and a sequence number, each read
  /// failing when too few bytes are left.
  function DecodeOne(bs: seq<byte>): (r: LogResult<Decoded>)
    ensures r.Ok? ==> |r.value.rest| + 16 + |r.value.rec.data| == |bs| && Encodable(r.value.rec)
    ensures r.Err? ==> r.error == UnexpectedEof
  {
    if |bs| < 8 then Err(UnexpectedEof)
    else
      var n := FromLe(bs[..8]);
      if |bs| - 8 < n || |bs| - 8 - n < 8 then Err(UnexpectedEof)
      else
        FromLeRoundTrip(bs[..8]);
        FromLeRoundTrip(bs[8 + n..16 + n]);
        assert Pow256(8) == U64;
        Ok(Decoded(Record(FromLe(bs[8 + n..16 + n]), bs[8..8 + n]), bs[16 + n..]))
  }

  /// A decoded record is the encoding of that record, followed by the rest.
  lemma DecodeOneSplit(bs: seq<byte>)
    requires DecodeOne(bs).Ok?
    ensures bs == EncodeRecord(DecodeOne(bs).value.rec) + DecodeOne(bs).value.rest
  {
    var n := FromLe(bs[..8]);
    FromLeRoundTrip(bs[..8]);
    FromLeRoundTrip(bs[8 + n..16 + n]);
    assert Pow256(8) == U64;
    assert bs == bs[..8] + bs[8..8 + n] + bs[8 + n..16 + n] + bs[16 + n..];
  }

  /// A record decodes from its own encoding, whatever follows it.
  lemma DecodeOneEncoded(r: Record, rest: seq<byte>)
    requires Encodable(r)
    ensures DecodeOne(EncodeRecord(r) + rest) == Ok(Decoded(r, rest))
  {
    var bs := EncodeRecord(r) + rest;
    var n := |r.data|;
    assert bs[..8] == Le64(n);
    assert bs[8..8 + n] == r.data;
    assert bs[8 + n..16 + n] == Le64(r.seqno);
    assert bs[16 + n..] == rest;
    Le64RoundTrip(n);
    Le64RoundTrip(r.seqno);
  }

  /// The front record decodes the same when more bytes follow.
  lemma DecodeOneExtend(a: seq<byte>, b: seq<byte>)
    requires DecodeOne(a).Ok?
    ensures DecodeOne(a + b) == Ok(Decoded(DecodeOne(a).value.rec, DecodeOne(a).value.rest + b))
  {
    var d := DecodeOne(a).value;
    DecodeOneSplit(a);
    assert a + b == EncodeRecord(d.rec) + (d.rest + b);
    DecodeOneEncoded(d.rec, d.rest + b);
  }

  /// All records of a log file, from the front, failing on a record that
  /// is cut short.
  function DecodeRecords(bs: seq<byte>): (r: LogResult<seq<Record>>)
    ensures r.Ok? ==> forall k :: 0 <= k < |r.value| ==> Encodable(r.value[k])
    decreases |bs|
  {
    if bs == [] then Ok([])
    else
      var d := DecodeOne(bs);
      if d.Err? then Err(d.error)
      else
        var rest := DecodeRecords(d.value.rest);
        if rest.Err? then rest else Ok([d.value.rec] + rest.value)
  }

  /// `pre` in front of a successful decoding.
  function Join(pre: seq<Record>, r: LogResult<seq<Record>>): LogResult<seq<Record>> {
    if r.Err? then r else Ok(pre + r.value)
  }

  /// One step of decoding a non-empty file.
  lemma DecodeStep(bs: seq<byte>)
    requires bs != []
    ensures var d := DecodeOne(bs);
      DecodeRecords(bs) == if d.Err? then Err(d.error) else Join([d.value.rec], DecodeRecords(d.value.rest))
  {
  }

  lemma JoinAppend(x: Record, ra: seq<Record>, rb: LogResult<seq<Record>>)
    ensures Join([x], Join(ra, rb)) == Join([x] + ra, rb)
  {
    if rb.Ok? {
      assert [x] + (ra + rb.value) == ([x] + ra) + rb.value;
    }
  }

  /// Decoding a file that decodes, followed by more bytes, continues with
  /// the decoding of those bytes.
  lemma {:induction false} DecodeAppend(a: seq<byte>, b: seq<byte>)
    requires DecodeRecords(a).Ok?
    ensures DecodeRecords(a + b) == Join(DecodeRecords(a).value, DecodeRecords(b))
    decreases |a|
  {
    if a == [] {
      assert a + b == b;
      if DecodeRecords(b).Ok? {
        assert [] + DecodeRecords(b).value == DecodeRecords(b).value;
      }
    } else {
      var d := DecodeOne(a).value;
      DecodeStep(a);
      DecodeOneExtend(a, b);
      DecodeStep(a + b);
      DecodeAppend(d.rest, b);
      JoinAppend(d.rec, DecodeRecords(d.rest).value, DecodeRecords(b));
    }
  }

  /// Decoding inverts encoding.
  lemma {:induction false} DecodeEncoded(rs: seq<Record>)
    requires forall k :: 0 <= k < |rs| ==> Encodable(rs[k])
    ensures DecodeRecords(EncodeAll(rs)) == Ok(rs)
  {
    if rs != [] {
      assert forall k :: 0 <= k < |rs[1..]| ==> rs[1..][k] == rs[k + 1];
      DecodeEncoded(rs[1..]);
      var bs := EncodeAll(rs);
      assert bs == EncodeRecord(rs[0]) + EncodeAll(rs[1..]);
      DecodeOneEncoded(rs[0], EncodeAll(rs[1..]));
      assert bs != [];
      assert DecodeRecords(bs) == Join([rs[0]], DecodeRecords(EncodeAll(rs[1..])));
      assert [rs[0]] + rs[1..] == rs;
    }
  }

  /// A file whose records decode ends with the sequence number of its
  /// last record; a file with no records is empty.
  lemma {:induction false} DecodedLast(bs: seq<byte>)
    requires DecodeRecords(bs).Ok?
    ensures DecodeRecords(bs).value == [] <==> bs == []
    ensures DecodeRecords(bs).value != [] ==>
      |bs| >= 8 && FromLe(bs[|bs| - 8..]) == DecodeRecords(bs).value[|DecodeRecords(bs).value| - 1].seqno
    decreases |bs|
  {
    if bs != [] {
      var d := DecodeOne(bs).value;
      DecodedLast(d.rest);
      DecodeOneSplit(bs);
      var rs := DecodeRecords(bs).value;
      var tail := DecodeRecords(d.rest).value;
      assert rs == [d.rec] + tail;
      if d.rest == [] {
        assert bs == Le64(|d.rec.data|) + d.rec.data + Le64(d.rec.seqno) + [];
        assert bs[|bs| - 8..] == Le64(d.rec.seqno);
        Le64RoundTrip(d.rec.seqno);
        assert rs[|rs| - 1] == d.rec;
      } else {
        assert bs[|bs| - 8..] == d.rest[|d.rest| - 8..];
        assert rs[|rs| - 1] == tail[|tail| - 1];
      }
    }
  }

  // ---------------------------------------------------------------------
  // Snapshots

  /// What a snapshot hands to its callback, in order, and the error that
  /// stopped it, if any.
  datatype Scan = Scan(delivered: seq<Record>, error: D.Option<LogError>)

  /// The snapshot loop over a file: records below `start` are skipped as
  /// truncated, a record at or past `end` stops the loop with an error,
  /// the others are delivered.
  function ScanLog(bs: seq<byte>, start: nat, end: nat): (s: Scan)
    ensures forall k :: 0 <= k < |s.delivered| ==> start <= s.delivered[k].seqno < end
    decreases |bs|
  {
    if bs == [] then Scan([], D.None)
    else
      var d := DecodeOne(bs);
      if d.Err? then Scan([], D.Some(d.error))
      else if d.value.rec.seqno < start then ScanLog(d.value.rest, start, end)
      else if d.value.rec.seqno >= end then Scan([], D.Some(InvalidSeqno(d.value.rec.seqno, start, end)))
      else
        var s := ScanLog(d.value.rest, start, end);
        Scan([d.value.rec] + s.delivered, s.error)
  }

  /// The records at or past `start`, in order.
  function Since(rs: seq<Record>, start: nat): (r: seq<Record>)
    ensures forall x :: x in r <==> x in rs && x.seqno >= start
  {
    if rs == [] then []
    else if rs[0].seqno < start then Since(rs[1..], start)
    else [rs[0]] + Since(rs[1..], start)
  }

  /// A snapshot of a file whose records decode and lie below `end`
  /// delivers exactly the records at or past `start`, in order, and
  /// succeeds.
  lemma {:induction false} ScanDecoded(bs: seq<byte>, start: nat, end: nat)
    requires DecodeRecords(bs).Ok?
    requires forall k :: 0 <= k < |DecodeRecords(bs).value| ==> DecodeRecords(bs).value[k].seqno < end
    ensures ScanLog(bs, start, end) == Scan(Since(DecodeRecords(bs).value, start), D.None)
    decreases |bs|
  {
    if bs != [] {
      var d := DecodeOne(bs).value;
      var rs := DecodeRecords(bs).value;
      assert rs == [d.rec] + DecodeRecords(d.rest).value;
      assert rs[0] == d.rec && rs[1..] == DecodeRecords(d.rest).value;
      assert forall k :: 0 <= k < |rs[1..]| ==> rs[1..][k] == rs[k + 1];
      ScanDecoded(d.rest, start, end);
    }
  }

  /// A record at or past `end` makes the snapshot fail.
  lemma {:induction false} ScanRejectsFuture(bs: seq<byte>, start: nat, end: nat, i: nat)
    requires DecodeRecords(bs).Ok? && i < |DecodeRecords(bs).value|
    requires start <= end && DecodeRecords(bs).value[i].seqno >= end
    ensures ScanLog(bs, start, end).error.Some?
    decreases |bs|
  {
    var d := DecodeOne(bs).value;
    var rs := DecodeRecords(bs).value;
    assert rs == [d.rec] + DecodeRecords(d.rest).value;
    if i > 0 {
      assert rs[i] == DecodeRecords(d.rest).value[i - 1];
      ScanRejectsFuture(d.rest, start, end, i - 1);
    }
  }

  // ---------------------------------------------------------------------
  // Recovery

  /// A sequence-number range `[start, end)`.
  datatype SeqRange = SeqRange(start: nat, end: nat)

  /// `FileLog::new` on the existing data and metadata files: `start` is the
  /// number in the metadata (zero when it is empty), `end` is one past the
  /// sequence number at the end of the data (zero when it is empty), and
  /// the range must not be inverted.
  function Recover(data: seq<byte>, meta: seq<byte>): (r: LogResult<SeqRange>)
    ensures r.Ok? ==> r.value.start <= r.value.end
    ensures r.Ok? && meta == [] ==> r.value.start == 0
    ensures r.Ok? && meta != [] ==> |meta| >= 8 && r.value.start == FromLe(meta[..8])
    ensures r.Ok? && data == [] ==> r.value.end == 0
    ensures r.Ok? && data != [] ==> |data| >= 8 && r.value.end == FromLe(data[|data| - 8..]) + 1
  {
    if meta != [] && |meta| < 8 then Err(MetadataTooShort(|meta|))
    else
      var start := if meta == [] then 0 else FromLe(meta[..8]);
      if data != [] && |data| < 8 then Err(SeekBeforeStart)
      else
        var last := if data == [] then 0 else FromLe(data[|data| - 8..]);
        if data != [] && last + 1 == U64 then Err(SeqnoOverflow)
        else
          var end := if data == [] then 0 else last + 1;
          if start > end then Err(InvalidRange(start, end)) else Ok(SeqRange(start, end))
  }

  // ---------------------------------------------------------------------
  // The log state

  /// The state a log's own writes leave behind: the records of the data
  /// file decode, lie below `end`, and the last one is `end - 1`; and the
  /// metadata file holds `start`.
  predicate ValidLog(start: nat, end: nat, data: seq<byte>, metadata: seq<byte>) {
    start <= end < U64
    && DecodeRecords(data).Ok?
    && (var rs := DecodeRecords(data).value;
      (forall k :: 0 <= k < |rs| ==> rs[k].seqno < end)
      && (rs == [] ==> end == 0)
      && (rs != [] ==> rs[|rs| - 1].seqno + 1 == end))
    && |metadata| >= 8 && FromLe(metadata[..8]) == start
  }

  /// A write at `end` keeps the state valid and adds its record at the end.
  lemma WriteKeepsValid(start: nat, end: nat, data: seq<byte>, metadata: seq<byte>, bytes: seq<byte>)
    requires ValidLog(start, end, data, metadata) && end + 1 < U64 && |bytes| < U64
    ensures ValidLog(start, end + 1, data + EncodeRecord(Record(end, bytes)), metadata)
    ensures DecodeRecords(data + EncodeRecord(Record(end, bytes))).value
      == DecodeRecords(data).value + [Record(end, bytes)]
  {
    var rec := Record(end, bytes);
    var enc := EncodeRecord(rec);
    DecodeAppend(data, enc);
    DecodeOneEncoded(rec, []);
    assert enc + [] == enc;
    assert DecodeRecords(enc) == Join([rec], DecodeRecords([]));
    var rs := DecodeRecords(data).value;
    var rs' := rs + [rec];
    assert forall k :: 0 <= k < |rs| ==> rs'[k] == rs[k];
  }

  /// A truncation inside `(start, end]` keeps the state valid.
  lemma TruncateKeepsValid(start: nat, end: nat, data: seq<byte>, metadata: seq<byte>, upper: nat)
    requires ValidLog(start, end, data, metadata) && start < upper <= end
    ensures ValidLog(upper, end, data, Le64(upper))
  {
    Le64RoundTrip(upper);
    assert Le64(upper)[..8] == Le64(upper);
  }

  /// Reopening the files of a valid log recovers its range.
  lemma ValidReopens(start: nat, end: nat, data: seq<byte>, metadata: seq<byte>)
    requires ValidLog(start, end, data, metadata) && |metadata| == 8
    ensures Recover(data, metadata) == Ok(SeqRange(start, end))
  {
    DecodedLast(data);
    assert metadata[..8] == metadata;
  }

  /// Three `read_exact` calls at `pos`: a length, that much data and a
  /// sequence number; the record and the position after it.
  method ReadRecord(bs: seq<byte>, pos: nat) returns (r: LogResult<(Record, nat)>)
    requires pos <= |bs|
    ensures var d := DecodeOne(bs[pos..]);
      (r.Err? <==> d.Err?) && (r.Err? ==> r.error == d.error)
      && (r.Ok? ==> r.value.0 == d.value.rec && r.value.1 <= |bs| && bs[r.value.1..] == d.value.rest)
  {
    ghost var left := bs[pos..];
    if |bs| - pos < 8 {
      return Err(UnexpectedEof);
    }
    var n := FromLe(bs[pos..pos + 8]);
    assert left[..8] == bs[pos..pos + 8];
    if |bs| - pos - 8 < n {
      return Err(UnexpectedEof);
    }
    var data := bs[pos + 8..pos + 8 + n];
    if |bs| - pos - 8 - n < 8 {
      return Err(UnexpectedEof);
    }
    var seqno := FromLe(bs[pos + 8 + n..pos + 16 + n]);
    assert left[8..8 + n] == data && left[8 + n..16 + n] == bs[pos + 8 + n..pos + 16 + n];
    assert left[16 + n..] == bs[pos + 16 + n..];
    r := Ok((Record(seqno, data), pos + 16 + n));
  }

  /// The snapshot loop, reading the file record by record.
  method ScanFile(bs: seq<byte>, start: nat, end: nat) returns (delivered: seq<Record>, err: D.Option<LogError>)
    ensures Scan(delivered, err) == ScanLog(bs, start, end)
  {
    delivered := [];
    var pos := 0;
    assert bs[0..] == bs;
    while pos < |bs|
      invariant 0 <= pos <= |bs|
      invariant ScanLog(bs, start, end) ==
        var rest := ScanLog(bs[pos..], start, end); Scan(delivered + rest.delivered, rest.error)
      decreases |bs| - pos
    {
      var read := ReadRecord(bs, pos);
      if read.Err? {
        return delivered, D.Some(read.error);
      }
      var (rec, next) := read.value;
      assert next > pos;
      pos := next;
      if rec.seqno < start {
        continue;
      } else if rec.seqno >= end {
        return delivered, D.Some(InvalidSeqno(rec.seqno, start, end));
      }
      ghost var rest := ScanLog(bs[pos..], start, end);
      assert delivered + ([rec] + rest.delivered) == (delivered + [rec]) + rest.delivered;
      delivered := delivered + [rec];
    }
    assert delivered + [] == delivered;
    err := D.None;
  }

  // ---------------------------------------------------------------------
  // The log

  /// `FileLog`: whether it is open (`base_dir` is set), its range, the
  /// contents of its data and metadata files, and its write buffer.
  class FileLog {
    var open: bool
    var start: nat
    var end: nat
    var data: seq<byte>
    var metadata: seq<byte>
    var buf: seq<byte>

    /// The records written to the log.
    function Records(): seq<Record>
      reads this
      requires DecodeRecords(data).Ok?
    {
      DecodeRecords(data).value
    }

    /// A log as its own writes leave it: the records decode, they lie below
    /// `end` and the last one is `end - 1`, and the metadata holds `start`.
    predicate Valid()
      reads this
    {
      ValidLog(start, end, data, metadata)
    }

    constructor (data: seq<byte>, metadata: seq<byte>, range: SeqRange)
      ensures this.data == data && this.metadata == metadata && buf == []
      ensures open && start == range.start && end == range.end
    {
      this.data := data;
      this.metadata := metadata;
      this.buf := [];
      open := true;
      start := range.start;
      end := range.end;
    }

    /// `FileLog::new` on the given file contents; an empty metadata file is
    /// given the number zero.
    static method Open(dataFile: seq<byte>, metaFile: seq<byte>) returns (r: LogResult<FileLog>)
      ensures Recover(dataFile, metaFile).Err? ==> r == Err(Recover(dataFile, metaFile).error)
      ensures Recover(dataFile, metaFile).Ok? ==> (r.Ok? && fresh(r.value)
        && r.value.open && r.value.data == dataFile && r.value.buf == []
        && r.value.start == Recover(dataFile, metaFile).value.start
        && r.value.end == Recover(dataFile, metaFile).value.end
        && r.value.metadata == (if metaFile == [] then Le64(0) else metaFile))
      ensures r.Ok? && dataFile == [] ==> r.value.Valid()
    {
      var range := Recover(dataFile, metaFile);
      if range.Err? {
        return Err(range.error);
      }
      var meta := if metaFile == [] then Le64(0) else metaFile;
      if metaFile == [] {
        Le64RoundTrip(0);
        assert meta[..8] == meta;
      }
      var log := new FileLog(dataFile, meta, range.value);
      r := Ok(log);
    }

    /// `ensure_open`.
    function EnsureOpen(): (r: LogResult<()>)
      reads this
      ensures r.Err? <==> !open
      ensures r.Err? ==> r.error == Closed
    {
      if open then Ok(()) else Err(Closed)
    }

    /// `Log::write_sync`: the write gets the sequence number `end`, which
    /// is returned; `end` moves one on, and the record is appended to the
    /// data file. A closed log refuses the write and nothing changes.
    method WriteSync(bytes: seq<byte>) returns (r: LogResult<nat>)
      requires |bytes| < U64 && end + 1 < U64
      modifies this
      ensures !old(open) ==> r == Err(Closed) && unchanged(this)
      ensures old(open) ==> (r == Ok(old(end)) && end == old(end) + 1 && start == old(start)
        && buf == EncodeRecord(Record(old(end), bytes)) && data == old(data) + buf
        && metadata == old(metadata) && open)
      ensures old(Valid()) && old(open) ==> Valid() && Records() == old(Records()) + [Record(old(end), bytes)]
    {
      if !open {
        return Err(Closed);
      }
      var writeSeqno := end;
      end := writeSeqno + 1;
      buf := [];
      buf := buf + Le64(|bytes|);
      buf := buf + bytes;
      buf := buf + Le64(writeSeqno);
      if ValidLog(start, writeSeqno, data, metadata) {
        WriteKeepsValid(start, writeSeqno, data, metadata, bytes);
      }
      data := data + buf;
      r := Ok(writeSeqno);
    }

    /// `Log::snapshot`, with the callback collecting what it is handed: the
    /// records the scan delivers, and the range unless the scan failed.
    method Snapshot() returns (delivered: seq<Record>, r: LogResult<SeqRange>)
      ensures !open ==> delivered == [] && r == Err(Closed)
      ensures open ==> var s := ScanLog(data, start, end);
        delivered == s.delivered
        && (s.error.None? ==> r == Ok(SeqRange(start, end)))
        && (s.error.Some? ==> r == Err(s.error.value))
      ensures open && Valid() ==> delivered == Since(Records(), start) && r == Ok(SeqRange(start, end))
    {
      if !open {
        return [], Err(Closed);
      }
      var err;
      delivered, err := ScanFile(data, start, end);
      if err.Some? {
        r := Err(err.value);
      } else {
        r := Ok(SeqRange(start, end));
      }
      if Valid() {
        ScanDecoded(data, start, end);
      }
    }

    /// `Log::truncate`: moving `start` up to `upper`, which must lie in
    /// `(start, end]`; the metadata file then holds `upper`.
    method Truncate(upper: nat) returns (r: LogResult<()>)
      requires upper < U64
      modifies this
      ensures !old(open) ==> r == Err(Closed) && unchanged(this)
      ensures old(open) ==> (r.Err? <==> upper <= old(start) || upper > old(end))
      ensures old(open) && r.Err? ==> r.error == InvalidTruncation(upper, old(start), old(end)) && unchanged(this)
      ensures r.Ok? ==> (start == upper && end == old(end) && metadata == Le64(upper)
        && data == old(data) && buf == old(buf) && open)
      ensures old(Valid()) ==> Valid()
    {
      if !open {
        return Err(Closed);
      }
      if upper <= start || upper > end {
        return Err(InvalidTruncation(upper, start, end));
      }
      if Valid() {
        TruncateKeepsValid(start, end, data, metadata, upper);
      }
      start := upper;
      metadata := Le64(upper);
      r := Ok(());
    }

    /// `Log::close`: true the first time, false once closed.
    method Close() returns (r: LogResult<bool>)
      modifies this
      ensures r == Ok(old(open)) && !open
      ensures start == old(start) && end == old(end) && data == old(data)
        && metadata == old(metadata) && buf == old(buf)
    {
      r := Ok(open);
      open := false;
    }
  }

  // ---------------------------------------------------------------------
  // The blob store

  /// `FileBlob`: whether it is open, and the contents of the file under
  /// each key.
  class FileBlob {
    var open: bool
    var files: map<string, seq<byte>>

    constructor (files: map<string, seq<byte>>)
      ensures open && this.files == files
    {
      open := true;
      this.files := files;
    }

    /// `Blob::get`: the contents under `key`, none when there is no file.
    method Get(key: string) returns (r: LogResult<D.Option<seq<byte>>>)
      ensures !open ==> r == Err(Closed)
      ensures open && key in files ==> r == Ok(D.Some(files[key]))
      ensures open && key !in files ==> r == Ok(D.None)
    {
      if !open {
        return Err(Closed);
      }
      if key in files {
        r := Ok(D.Some(files[key]));
      } else {
        r := Ok(D.None);
      }
    }

    /// `Blob::set`: without `allowOverwrite` an existing key is refused
    /// (the file is created exclusively); otherwise the value replaces it.
    method Set(key: string, value: seq<byte>, allowOverwrite: bool) returns (r: LogResult<()>)
      modifies this
      ensures !old(open) ==> r == Err(Closed) && unchanged(this)
      ensures old(open) ==> (r.Err? <==> !allowOverwrite && key in old(files))
      ensures old(open) && r.Err? ==> r.error == AlreadyExists(key) && unchanged(this)
      ensures r.Ok? ==> files == old(files)[key := value] && open
    {
      if !open {
        return Err(Closed);
      }
      if !allowOverwrite && key in files {
        return Err(AlreadyExists(key));
      }
      files := files[key := value];
      r := Ok(());
    }

    /// `Blob::delete`: succeeds whether or not the key exists.
    method Delete(key: string) returns (r: LogResult<()>)
      modifies this
      ensures !old(open) ==> r == Err(Closed) && unchanged(this)
      ensures old(open) ==> r == Ok(()) && files == old(files) - {key} && open
    {
      if !open {
        return Err(Closed);
      }
      files := files - {key};
      r := Ok(());
    }

    /// `Blob::close`: true the first time, false once closed.
    method Close() returns (r: LogResult<bool>)
      modifies this
      ensures r == Ok(old(open)) && !open && files == old(files)
    {
      r := Ok(open);
      open := false;
    }
  }
}
