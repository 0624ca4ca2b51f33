/** IsCompleteRecord decides whether bytes are a whole number of TLS application-data records. */
module TlsRecord {
  import opened Bytes

  /** A TLSCiphertext record of type application data, section 5.2 of RFC 8446. */
  function RecordBytes(payload: seq<byte>): seq<byte>
    requires 0 < |payload| < 65536
  {
    [0x17, 0x03, 0x03] + U16(|payload|) + payload
  }

  predicate Payloads(ps: Pieces) {
    forall p <- ps :: 0 < |p| < 65536
  }

  function RecordsBytes(ps: Pieces): seq<byte>
    requires Payloads(ps)
  {
    if ps == [] then [] else RecordBytes(ps[0]) + RecordsBytes(ps[1..])
  }

  /** The language: zero or more complete records with non-empty payloads. */
  ghost predicate IsRecords(b: seq<byte>) {
    exists ps :: Payloads(ps) && RecordsBytes(ps) == b
  }

  /** A deterministic reading of the same language. */
  predicate Scan(b: seq<byte>)
    decreases |b|
  {
    b == [] ||
    (|b| >= 5 && b[..3] == [0x17, 0x03, 0x03] &&
     var n := FromU16(b[3..5]);
     0 < n <= |b| - 5 && Scan(b[5 + n..]))
  }

  lemma {:induction false} ScanAcceptsRecords(ps: Pieces)
    requires Payloads(ps)
    ensures Scan(RecordsBytes(ps))
    decreases |ps|
  {
    if ps != [] {
      var b := RecordsBytes(ps);
      var n := |ps[0]|;
      assert b[..3] == [0x17, 0x03, 0x03];
      assert b[3..5] == U16(n);
      assert b[5 + n..] == RecordsBytes(ps[1..]);
      ScanAcceptsRecords(ps[1..]);
    }
  }

  lemma {:induction false} ScanFindsRecords(b: seq<byte>) returns (ps: Pieces)
    requires Scan(b)
    ensures Payloads(ps) && RecordsBytes(ps) == b
    decreases |b|
  {
    if b == [] {
      ps := [];
    } else {
      var n := FromU16(b[3..5]);
      var rest := ScanFindsRecords(b[5 + n..]);
      var p := b[5..5 + n];
      ps := [p] + rest;
      assert ps[1..] == rest;
      assert U16(n) == b[3..5];
      assert b == RecordBytes(p) + b[5 + n..];
    }
  }

  lemma ScanDecidesRecords(b: seq<byte>)
    ensures Scan(b) <==> IsRecords(b)
  {
    if Scan(b) {
      var ps := ScanFindsRecords(b);
    }
    if IsRecords(b) {
      var ps :| Payloads(ps) && RecordsBytes(ps) == b;
      ScanAcceptsRecords(ps);
    }
  }

  /** What the loop still accepts, given its position in a header or payload. */
  predicate Accepts(headerLen: int, recordLen: int, rest: seq<byte>)
    requires 0 <= headerLen <= 5
    decreases |rest|, headerLen
  {
    if rest == [] then headerLen == 5 && recordLen == 0
    else if headerLen > 0 then
      var data := rest[0];
      (headerLen == 5 ==> data == 0x17) && (headerLen == 4 ==> data == 0x03) && (headerLen == 3 ==> data == 0x03) &&
      var r := if headerLen == 2 then 256 * (data as int) else if headerLen == 1 then recordLen + data else recordLen;
      Accepts(headerLen - 1, r, rest[1..])
    else
      0 < recordLen <= |rest| && Accepts(5, 0, rest[recordLen..])
  }

  /** Five header bytes of the loop against one header of the grammar. */
  lemma AcceptsHeader(b: seq<byte>)
    requires |b| >= 5
    ensures Accepts(5, 0, b) <==> b[..3] == [0x17, 0x03, 0x03] && Accepts(0, FromU16(b[3..5]), b[5..])
  {
    assert Accepts(5, 0, b) <==> b[0] == 0x17 && Accepts(4, 0, b[1..]);
    assert b[1..][0] == b[1] && b[1..][1..] == b[2..];
    assert b[2..][0] == b[2] && b[2..][1..] == b[3..];
    assert b[3..][0] == b[3] && b[3..][1..] == b[4..];
    assert b[4..][0] == b[4] && b[4..][1..] == b[5..];
    assert Accepts(4, 0, b[1..]) <==> b[1] == 0x03 && Accepts(3, 0, b[2..]);
    assert Accepts(3, 0, b[2..]) <==> b[2] == 0x03 && Accepts(2, 0, b[3..]);
    assert Accepts(2, 0, b[3..]) <==> Accepts(1, 256 * (b[3] as int), b[4..]);
    assert Accepts(1, 256 * (b[3] as int), b[4..]) <==> Accepts(0, 256 * (b[3] as int) + b[4], b[5..]);
    assert b[..3] == [b[0], b[1], b[2]];
  }

  lemma {:induction false} ShortHeaderRejected(headerLen: int, recordLen: int, rest: seq<byte>)
    requires 0 < headerLen < 5 && |rest| <= headerLen
    ensures !Accepts(headerLen, recordLen, rest)
    decreases |rest|
  {
    if rest != [] && headerLen > 1 {
      var r := if headerLen == 2 then 256 * (rest[0] as int) else recordLen;
      ShortHeaderRejected(headerLen - 1, r, rest[1..]);
    }
  }

  lemma {:induction false} AcceptsIsScan(b: seq<byte>)
    ensures Accepts(5, 0, b) <==> Scan(b)
    decreases |b|
  {
    if b == [] {
    } else if |b| < 5 {
      ShortHeaderRejected(4, 0, b[1..]);
    } else {
      AcceptsHeader(b);
      var n := FromU16(b[3..5]);
      if 0 < n <= |b| - 5 {
        assert b[5..][n..] == b[5 + n..];
        AcceptsIsScan(b[5 + n..]);
      } else if |b| == 5 {
        assert b[5..] == [];
      }
    }
  }

  /** One header byte of the loop. */
  method HeaderByte(headerLen: int, recordLen: nat, data: byte, ghost rest: seq<byte>) returns (ok: bool, r: nat)
    requires 0 < headerLen <= 5 && rest != [] && rest[0] == data
    ensures !ok ==> !Accepts(headerLen, recordLen, rest)
    ensures ok ==> (Accepts(headerLen, recordLen, rest) <==> Accepts(headerLen - 1, r, rest[1..]))
  {
    r := recordLen;
    match headerLen {
      case 5 => if data != 0x17 { return false, r; }
      case 4 => if data != 0x03 { return false, r; }
      case 3 => if data != 0x03 { return false, r; }
      case 2 => r := 256 * (data as int);
      case 1 => r := recordLen + data;
    }
    ok := true;
  }

  lemma SkipPayload(b: seq<byte>, i: nat, n: nat)
    requires 0 < n <= |b| - i
    ensures Accepts(0, n, b[i..]) <==> Accepts(5, 0, b[i + n..])
  {
    assert b[i..][n..] == b[i + n..];
  }

  /** The loop of IsCompleteRecord. */
  method ScanBytes(b: seq<byte>) returns (ok: bool)
    ensures ok <==> Accepts(5, 0, b)
  {
    var headerLen, recordLen: nat := 5, 0;
    var i := 0;
    assert b[0..] == b;
    while i < |b|
      invariant 0 <= i <= |b| && 0 <= headerLen <= 5
      invariant Accepts(5, 0, b) <==> Accepts(headerLen, recordLen, b[i..])
    {
      ghost var rest := b[i..];
      if headerLen > 0 {
        ok, recordLen := HeaderByte(headerLen, recordLen, b[i], rest);
        if !ok {
          return;
        }
        i := i + 1;
        assert rest[1..] == b[i..];
        headerLen := headerLen - 1;
      } else if recordLen > 0 {
        if |b| - i < recordLen {
          return false;
        }
        SkipPayload(b, i, recordLen);
        i := i + recordLen;
        recordLen := 0;
        headerLen := 5;
      } else {
        return false;
      }
    }
    ok := headerLen == 5 && recordLen == 0;
  }

  /** IsCompleteRecord on the joined bytes of a MultiBuffer. */
  method IsCompleteRecord(mb: Pieces) returns (ok: bool)
    ensures ok <==> IsRecords(Flatten(mb))
  {
    var b := Flatten(mb);
    ScanDecidesRecords(b);
    AcceptsIsScan(b);
    ok := ScanBytes(b);
  }
}
