/**
 * The snapshot reader: the RDB length encoding, the scan readValueFromRdb
 * does for GET and the different scan handleKeysCommand does for KEYS.
 * The file is a sequence of bytes read through a cursor.
 */
module Rdb {
  import opened Wrappers
  import opened JavaLang
  import Resp

  type Byte = b: int | 0 <= b < 256

  /** new String(bytes), one character per byte. */
  function AsString(bytes: seq<Byte>): (s: string)
    ensures |s| == |bytes|
  {
    seq(|bytes|, i requires 0 <= i < |bytes| => bytes[i] as char)
  }

  // ---------------------------------------------------------------------
  // The InputStream reads, as functions of the bytes and the cursor

  /** read(): the next byte and the cursor after it, or -1 at the end. */
  function NextByte(data: seq<Byte>, pos: nat): (r: (int, nat))
    requires pos <= |data|
    ensures -1 <= r.0 <= 255 && pos <= r.1 <= |data|
    ensures r.0 == -1 <==> pos == |data|
  {
    if pos < |data| then (data[pos], pos + 1) else (-1, pos)
  }

  /** readNBytes(n): at most n bytes; a negative n throws. */
  function TakeBytes(data: seq<Byte>, pos: nat, n: int): (r: Result<(seq<Byte>, nat)>)
    requires pos <= |data|
    ensures r.Err? <==> n < 0
    ensures r.Err? ==> r.error == NegativeLength
    ensures r.Ok? ==> pos <= r.value.1 <= |data| && r.value.0 == data[pos..r.value.1]
    ensures r.Ok? ==> r.value.1 == Min(pos + n, |data|)
  {
    if n < 0 then Err(NegativeLength)
    else
      var end := Min(pos + n, |data|);
      Ok((data[pos..end], end))
  }

  /** ByteBuffer.getInt over four bytes, zero-filled where fewer were read: big-endian, signed. */
  function Int32BigEndian(bs: seq<Byte>): (v: int)
    requires |bs| <= 4
    ensures INT_MIN <= v <= INT_MAX
  {
    var p := bs + seq(4 - |bs|, _ => 0 as Byte);
    var u := ((p[0] * 256 + p[1]) * 256 + p[2]) * 256 + p[3];
    if u >= 0x8000_0000 then u - 0x1_0000_0000 else u
  }

  /**
   * lengthEncoding(is, b): the rule is chosen by the top two bits of b,
   * b / 64 for a byte; b = -1 (end of stream) has both bits set.
   */
  function DecodeLength(data: seq<Byte>, pos: nat, b: int): (r: (int, nat))
    requires pos <= |data| && -1 <= b <= 255
    ensures pos <= r.1 <= |data|
  {
    var first2bits := if b < 0 then 3 else b / 64;
    if first2bits == 0 then
      (b % 64, pos)
    else if first2bits == 1 then
      var (next, p) := NextByte(data, pos);
      // is.read() & 0xFF turns the end-of-stream -1 into 255
      ((b % 64) * 256 + (if next < 0 then 255 else next), p)
    else if first2bits == 2 then
      var end := Min(pos + 4, |data|);
      (Int32BigEndian(data[pos..end]), end)
    else
      (-1, pos)
  }

  /** readNBytes(lengthEncoding(fis, fis.read())): one length-prefixed string. */
  function ReadLengthPrefixed(data: seq<Byte>, pos: nat): (r: Result<(seq<Byte>, nat)>)
    requires pos <= |data|
    ensures r.Ok? ==> pos <= r.value.1 <= |data|
  {
    var (b, p1) := NextByte(data, pos);
    var (len, p2) := DecodeLength(data, p1, b);
    TakeBytes(data, p2, len)
  }

  /** fis.read(redis) then fis.read(version): up to 5 and then up to 4 bytes. */
  function AfterHeader(data: seq<Byte>): (p: nat)
    ensures p <= |data|
  {
    Min(Min(5, |data|) + 4, |data|)
  }

  // ---------------------------------------------------------------------
  // The length encoding

  /** The four rules of the length encoding, by the top two bits of the leading byte. */
  lemma LengthEncodingRules(data: seq<Byte>, pos: nat, b: int)
    requires pos <= |data| && -1 <= b <= 255
    ensures 0 <= b < 0x40 ==> DecodeLength(data, pos, b) == (b, pos) && b <= 63
    ensures 0x40 <= b < 0x80 && pos < |data| ==>
      DecodeLength(data, pos, b) == ((b - 0x40) * 256 + data[pos], pos + 1) && DecodeLength(data, pos, b).0 <= 16383
    ensures 0x80 <= b < 0xC0 && pos + 4 <= |data| ==>
      DecodeLength(data, pos, b) == (Int32BigEndian(data[pos..pos + 4]), pos + 4)
    ensures b == -1 || b >= 0xC0 ==> DecodeLength(data, pos, b) == (-1, pos)
  {
  }

  /** The shortest length encoding of n: the partner the decoder inverts. */
  function EncodeLength(n: nat): (e: seq<Byte>)
    requires n <= INT_MAX
    ensures 1 <= |e| <= 5
  {
    if n < 64 then [n]
    else if n < 16384 then [64 + n / 256, n % 256]
    else
      var q1 := n / 256;
      var q2 := q1 / 256;
      var q3 := q2 / 256;
      [128, q3, q2 % 256, q1 % 256, n % 256]
  }

  /** Decoding the leading byte of an encoded length reads the rest of it and returns the length. */
  lemma LengthRoundTrip(n: nat, rest: seq<Byte>)
    requires n <= INT_MAX
    ensures var data := EncodeLength(n) + rest;
      DecodeLength(data, 1, data[0]) == (n, |EncodeLength(n)|)
  {
    var e := EncodeLength(n);
    var data := e + rest;
    if 64 <= n < 16384 {
      assert data[0] == 64 + n / 256 && data[1] == n % 256;
      assert data[0] / 64 == 1;
    } else if n >= 16384 {
      var q1 := n / 256;
      var q2 := q1 / 256;
      var q3 := q2 / 256;
      assert data[1..5] == [q3, q2 % 256, q1 % 256, n % 256];
      assert q1 == q2 * 256 + q1 % 256;
      assert q2 == q3 * 256 + q2 % 256;
      assert n == q1 * 256 + n % 256;
      assert ((q3 * 256 + q2 % 256) * 256 + q1 % 256) * 256 + n % 256 == n;
    }
  }

  /** The boundaries 63/64 and 16383/16384 between the one-, two- and five-byte forms. */
  lemma LengthEncodingBoundaries()
    ensures EncodeLength(63) == [63]
    ensures EncodeLength(64) == [0x40, 0x40]
    ensures EncodeLength(16383) == [0x7F, 0xFF]
    ensures EncodeLength(16384) == [0x80, 0x00, 0x00, 0x40, 0x00]
  {
  }

  // ---------------------------------------------------------------------
  // readValueFromRdb, as functions of the bytes

  /**
   * The opcode scan of readValueFromRdb: 0xFF stops; 0xFE skips the index
   * byte; 0xFB skips as many bytes as each of two decoded lengths and stops;
   * any other byte is passed over.
   */
  function LookupScan(data: seq<Byte>, pos: nat): (r: Result<nat>)
    requires pos <= |data|
    ensures r.Ok? ==> pos <= r.value <= |data|
    decreases |data| - pos
  {
    var (b, p1) := NextByte(data, pos);
    if b == -1 || b == 0xFF then Ok(p1)
    else if b == 0xFE then LookupScan(data, NextByte(data, p1).1)
    else if b == 0xFB then
      match ReadLengthPrefixed(data, p1)
      case Err(e) => Err(e)
      case Ok((_, p2)) =>
        match ReadLengthPrefixed(data, p2)
        case Err(e) => Err(e)
        case Ok((_, p3)) => Ok(p3)
    else LookupScan(data, p1)
  }

  /**
   * The record loop of readValueFromRdb: a key, then its value, until the
   * stream ends. The value after a matching key is returned; any other
   * value is skipped.
   */
  function LookupRecords(data: seq<Byte>, pos: nat, key: string): Result<Option<string>>
    requires pos <= |data|
    decreases |data| - pos
  {
    var (b, p1) := NextByte(data, pos);
    if b == -1 then Ok(None)
    else
      var (strLength, p2) := DecodeLength(data, p1, b);
      match TakeBytes(data, p2, strLength)
      case Err(e) => Err(e)
      case Ok((bytes, p3)) =>
        if key == AsString(bytes) then
          match ReadLengthPrefixed(data, p3)
          case Err(e) => Err(e)
          case Ok((valueBytes, _)) => Ok(Some(AsString(valueBytes)))
        else
          match ReadLengthPrefixed(data, p3)
          case Err(e) => Err(e)
          case Ok((_, p4)) => LookupRecords(data, p4, key)
  }

  /** readValueFromRdb(key): null with no configuration or no file, else the scan then the record loop. */
  function RdbLookup(dir: Option<string>, dbfilename: Option<string>, file: Option<seq<Byte>>, key: string): Result<Option<string>> {
    if dir.None? || dbfilename.None? then Ok(None)
    else
      match file
      case None => Ok(None)
      case Some(data) =>
        match LookupScan(data, AfterHeader(data))
        case Err(e) => Err(e)
        case Ok(p) => LookupRecords(data, p, key)
  }

  // ---------------------------------------------------------------------
  // handleKeysCommand, as functions of the bytes

  /**
   * The opcode scan of handleKeysCommand: 0xFF stops; 0xFE is passed over
   * without its index byte; 0xFB reads one byte and decodes a length from
   * it twice, skipping each; any other byte is passed over.
   */
  function KeysScan(data: seq<Byte>, pos: nat): (r: Result<nat>)
    requires pos <= |data|
    ensures r.Ok? ==> pos <= r.value <= |data|
    decreases |data| - pos
  {
    var (b, p1) := NextByte(data, pos);
    if b == -1 || b == 0xFF then Ok(p1)
    else if b == 0xFB then
      var (size, p2) := NextByte(data, p1);
      var (len1, p3) := DecodeLength(data, p2, size);
      match TakeBytes(data, p3, len1)
      case Err(e) => Err(e)
      case Ok((_, p4)) =>
        var (len2, p5) := DecodeLength(data, p4, size);
        match TakeBytes(data, p5, len2)
        case Err(e) => Err(e)
        case Ok((_, p6)) => Ok(p6)
    else KeysScan(data, p1)
  }

  /** The record loop of handleKeysCommand: the first key, or "foo" if the stream has ended. */
  function FirstKey(data: seq<Byte>, pos: nat): Result<string>
    requires pos <= |data|
  {
    var (b, p1) := NextByte(data, pos);
    if b == -1 then Ok("foo")
    else
      var (strLength, p2) := DecodeLength(data, p1, b);
      match TakeBytes(data, p2, strLength)
      case Err(e) => Err(e)
      case Ok((bytes, _)) => Ok(AsString(bytes))
  }

  /** The KEYS reply "*1\r\n$<len>\r\n<key>\r\n". */
  function KeysFormat(key: string): string {
    "*1\r\n$" + Decimal(|key|) + CRLF + key + CRLF
  }

  /** handleKeysCommand: a missing file throws; otherwise the scan, the first key, the reply. */
  function KeysReply(file: Option<seq<Byte>>): Result<string> {
    match file
    case None => Err(FileNotFound)
    case Some(data) =>
      match KeysScan(data, AfterHeader(data))
      case Err(e) => Err(e)
      case Ok(p) =>
        match FirstKey(data, p)
        case Err(e) => Err(e)
        case Ok(key) => Ok(KeysFormat(key))
  }

  /** The KEYS reply is the array reply of the one key. */
  lemma KeysFormatIsArrayReply(key: string)
    ensures KeysFormat(key) == Resp.ArrayReply([key])
  {
    var b := "$" + Decimal(|key|) + CRLF + key + CRLF;
    assert Resp.ArrayReply([key]) == "*" + Decimal(1) + CRLF + b by {
      assert [key][1..] == [];
      assert Resp.BulkAll([key]) == Resp.Bulk(key) + "";
      assert Resp.Bulk(key) + "" == b;
    }
    assert Decimal(1) == "1";
    assert KeysFormat(key) == "*1\r\n" + b;
  }

  // ---------------------------------------------------------------------
  // A reference reading of the record region: every (key, value) pair

  datatype Record = Record(key: seq<Byte>, value: seq<Byte>)

  /**
   * The records read in full before the stream ends or a length faults,
   * and that fault, if any.
   */
  function RecordsRead(data: seq<Byte>, pos: nat): (seq<Record>, Option<Fault>)
    requires pos <= |data|
    decreases |data| - pos
  {
    var (b, p1) := NextByte(data, pos);
    if b == -1 then ([], None)
    else
      var (strLength, p2) := DecodeLength(data, p1, b);
      match TakeBytes(data, p2, strLength)
      case Err(e) => ([], Some(e))
      case Ok((bytes, p3)) =>
        match ReadLengthPrefixed(data, p3)
        case Err(e) => ([], Some(e))
        case Ok((valueBytes, p4)) =>
          var (rest, fault) := RecordsRead(data, p4);
          ([Record(bytes, valueBytes)] + rest, fault)
  }

  /** A record whose key and value lengths take one byte each is read as those two slices. */
  lemma ShortRecordRead(data: seq<Byte>, pos: nat)
    requires pos < |data| && data[pos] < 64
    requires pos + 1 + data[pos] < |data| && data[pos + 1 + data[pos]] < 64
    requires pos + 2 + data[pos] + data[pos + 1 + data[pos]] <= |data|
    ensures var k := data[pos]; var v := data[pos + 1 + k]; var next := pos + 2 + k + v;
      RecordsRead(data, pos) ==
        ([Record(data[pos + 1..pos + 1 + k], data[pos + 2 + k..next])] + RecordsRead(data, next).0, RecordsRead(data, next).1)
  {
    var k := data[pos];
    var v := data[pos + 1 + k];
    var next := pos + 2 + k + v;
    assert NextByte(data, pos) == (k, pos + 1);
    assert DecodeLength(data, pos + 1, k) == (k, pos + 1);
    assert TakeBytes(data, pos + 1, k) == Ok((data[pos + 1..pos + 1 + k], pos + 1 + k));
    assert ReadLengthPrefixed(data, pos + 1 + k) == Ok((data[pos + 2 + k..next], next)) by {
      assert NextByte(data, pos + 1 + k) == (v, pos + 2 + k);
      assert DecodeLength(data, pos + 2 + k, v) == (v, pos + 2 + k);
    }
  }

  /** The value of the first record whose key is `key`. */
  function FirstMatch(rs: seq<Record>, key: string): Option<string> {
    if rs == [] then None
    else if AsString(rs[0].key) == key then Some(AsString(rs[0].value))
    else FirstMatch(rs[1..], key)
  }

  /** FirstMatch finds nothing exactly when no key matches, and otherwise the value of the earliest match. */
  lemma {:induction false} FirstMatchMeans(rs: seq<Record>, key: string)
    ensures FirstMatch(rs, key).None? <==> forall i :: 0 <= i < |rs| ==> AsString(rs[i].key) != key
    ensures FirstMatch(rs, key).Some? ==>
      exists i :: 0 <= i < |rs| && AsString(rs[i].key) == key
        && FirstMatch(rs, key).value == AsString(rs[i].value)
        && forall j :: 0 <= j < i ==> AsString(rs[j].key) != key
  {
    if rs != [] && AsString(rs[0].key) != key {
      var tail := rs[1..];
      FirstMatchMeans(tail, key);
      if FirstMatch(tail, key).Some? {
        var i :| 0 <= i < |tail| && AsString(tail[i].key) == key && FirstMatch(tail, key).value == AsString(tail[i].value)
          && forall j :: 0 <= j < i ==> AsString(tail[j].key) != key;
        assert rs[i + 1] == tail[i];
        forall j | 0 <= j < i + 1 ensures AsString(rs[j].key) != key {
          if j > 0 { assert rs[j] == tail[j - 1]; }
        }
      } else {
        forall i | 0 <= i < |rs| ensures AsString(rs[i].key) != key {
          if i > 0 { assert rs[i] == tail[i - 1]; }
        }
      }
    } else if rs != [] {
      assert AsString(rs[0].key) == key;
    }
  }

  /**
   * GET returns the value of the first matching record read in full; with
   * no match it gives the fault that ended the reading, or null at the end
   * of the stream.
   */
  lemma {:induction false} LookupIsFirstMatch(data: seq<Byte>, pos: nat, key: string)
    requires pos <= |data|
    ensures var (rs, fault) := RecordsRead(data, pos);
      LookupRecords(data, pos, key) ==
        if FirstMatch(rs, key).Some? then Ok(FirstMatch(rs, key))
        else if fault.Some? then Err(fault.value)
        else Ok(None)
    decreases |data| - pos
  {
    var (b, p1) := NextByte(data, pos);
    if b != -1 {
      var (strLength, p2) := DecodeLength(data, p1, b);
      var t := TakeBytes(data, p2, strLength);
      if t.Ok? {
        var (bytes, p3) := t.value;
        var v := ReadLengthPrefixed(data, p3);
        if v.Ok? {
          var (valueBytes, p4) := v.value;
          var rs := RecordsRead(data, pos).0;
          assert rs == [Record(bytes, valueBytes)] + RecordsRead(data, p4).0;
          assert rs[1..] == RecordsRead(data, p4).0;
          if key != AsString(bytes) {
            LookupIsFirstMatch(data, p4, key);
          }
        }
      }
    }
  }

  /**
   * KEYS returns the key of the first record read in full, "foo" when the
   * stream ends before any record, and faults only when no record was read,
   * with the fault that ended the reading.
   */
  lemma FirstKeyIsFirstRecord(data: seq<Byte>, pos: nat)
    requires pos <= |data|
    ensures var (rs, fault) := RecordsRead(data, pos);
      && (rs != [] ==> FirstKey(data, pos) == Ok(AsString(rs[0].key)))
      && (rs == [] && fault.None? ==> FirstKey(data, pos) == Ok("foo"))
      && (FirstKey(data, pos).Err? ==> rs == [] && fault == Some(FirstKey(data, pos).error))
  {
  }

  /**
   * KEYS reads only the first key: with a short key length byte it replies
   * that many bytes, whatever follows them.
   */
  lemma FirstKeyIgnoresValue(data: seq<Byte>, pos: nat)
    requires pos < |data| && data[pos] < 64
    ensures FirstKey(data, pos) == Ok(AsString(data[pos + 1..Min(pos + 1 + data[pos], |data|)]))
  {
    assert NextByte(data, pos) == (data[pos], pos + 1);
    assert DecodeLength(data, pos + 1, data[pos]) == (data[pos], pos + 1);
  }

  /**
   * A key a followed by the integer-encoded value 123: the record loop
   * faults on the value length before completing the record, yet KEYS
   * replies a.
   */
  lemma KeyBeforeFaultingValue()
    ensures RecordsRead([0x01, 97, 0xC0, 0x7B], 0) == ([], Some(NegativeLength))
    ensures FirstKey([0x01, 97, 0xC0, 0x7B], 0) == Ok("a")
  {
    var data: seq<Byte> := [0x01, 97, 0xC0, 0x7B];
    assert NextByte(data, 0) == (1, 1);
    assert DecodeLength(data, 1, 1) == (1, 1);
    assert TakeBytes(data, 1, 1) == Ok((data[1..2], 2));
    assert data[1..2] == [97];
    assert ReadLengthPrefixed(data, 2) == Err(NegativeLength) by {
      assert NextByte(data, 2) == (0xC0, 3);
      assert DecodeLength(data, 3, 0xC0) == (-1, 3);
    }
    assert AsString([97]) == "a";
  }

  // ---------------------------------------------------------------------
  // Where the two scans differ, and what the record loop does past 0xFF

  /** GET's scan steps over the database index byte after 0xFE. */
  lemma LookupScanSkipsSelectDbIndex(data: seq<Byte>, pos: nat)
    requires pos + 1 < |data| && data[pos] == 0xFE
    ensures LookupScan(data, pos) == LookupScan(data, pos + 2)
  {
  }

  /** KEYS's scan treats the byte after 0xFE as the next opcode. */
  lemma KeysScanKeepsSelectDbIndex(data: seq<Byte>, pos: nat)
    requires pos < |data| && data[pos] == 0xFE
    ensures KeysScan(data, pos) == KeysScan(data, pos + 1)
  {
  }

  /** KEYS's scan decodes the one byte after 0xFB twice: with a short length n it skips 2n bytes. */
  lemma KeysScanReusesResizeByte(data: seq<Byte>, pos: nat)
    requires pos + 1 < |data| && data[pos] == 0xFB && data[pos + 1] < 64
    ensures KeysScan(data, pos) == Ok(Min(pos + 2 + 2 * data[pos + 1], |data|))
  {
  }

  /** GET's scan decodes two lengths after 0xFB, each from its own byte, and skips each. */
  lemma LookupScanResizeDb(data: seq<Byte>, pos: nat, n1: nat, n2: nat)
    requires n1 < 64 && n2 < 64 && pos + 2 + n1 + n2 < |data| + 1
    requires pos + 3 + n1 <= |data|
    requires data[pos] == 0xFB && data[pos + 1] == n1 && data[pos + 2 + n1] == n2
    ensures LookupScan(data, pos) == Ok(Min(pos + 3 + n1 + n2, |data|))
  {
  }

  /** The record loop is entered after 0xFF too: what follows the end opcode is read as records. */
  lemma RecordsReadPastEndOpcode(data: seq<Byte>, key: string)
    requires AfterHeader(data) < |data| && data[AfterHeader(data)] == 0xFF
    ensures RdbLookup(Some(""), Some(""), Some(data), key) == LookupRecords(data, AfterHeader(data) + 1, key)
  {
  }

  /**
   * A special-encoding byte (top bits 11) where a key length is expected
   * decodes to -1 and readNBytes(-1) throws; this includes the 0xFF end
   * opcode met in the record loop.
   */
  lemma SpecialLengthFaults(data: seq<Byte>, pos: nat, key: string)
    requires pos < |data| && data[pos] >= 0xC0
    ensures LookupRecords(data, pos, key) == Err(NegativeLength)
    ensures FirstKey(data, pos) == Err(NegativeLength)
    ensures RecordsRead(data, pos) == ([], Some(NegativeLength))
  {
  }

  /** With no configuration or no file, GET's snapshot reading gives null. */
  lemma RdbLookupAbsent(dir: Option<string>, dbfilename: Option<string>, file: Option<seq<Byte>>, key: string)
    requires dir.None? || dbfilename.None? || file.None?
    ensures RdbLookup(dir, dbfilename, file, key) == Ok(None)
  {
  }

  // ---------------------------------------------------------------------
  // One small snapshot: header "REDIS0011", SELECTDB 0, RESIZEDB 1 0, the
  // string record foo = bar (value type byte 0), the end opcode

  const SAMPLE: seq<Byte> := [82, 69, 68, 73, 83, 48, 48, 49, 49,
                              0xFE, 0x00, 0xFB, 0x01, 0x00, 0x00,
                              0x03, 102, 111, 111, 0x03, 98, 97, 114, 0xFF]

  lemma SampleAsStrings()
    ensures AsString(SAMPLE[16..19]) == "foo" && AsString(SAMPLE[20..23]) == "bar"
  {
    assert SAMPLE[16..19] == [102, 111, 111];
    assert SAMPLE[20..23] == [98, 97, 114];
  }

  /** The GET scan of the sample stops after the RESIZEDB sizes, at the record. */
  lemma SampleLookupScan()
    ensures LookupScan(SAMPLE, AfterHeader(SAMPLE)) == Ok(15)
  {
    assert AfterHeader(SAMPLE) == 9;
    assert ReadLengthPrefixed(SAMPLE, 12) == Ok((SAMPLE[13..14], 14));
    assert ReadLengthPrefixed(SAMPLE, 14) == Ok((SAMPLE[15..15], 15)) by {
      assert NextByte(SAMPLE, 14) == (0, 15);
      assert DecodeLength(SAMPLE, 15, 0) == (0, 15);
    }
    assert LookupScan(SAMPLE, 11) == Ok(15);
  }

  /** The KEYS scan of the sample stops at the same place, by reading the size byte 1 twice. */
  lemma SampleKeysScan()
    ensures KeysScan(SAMPLE, AfterHeader(SAMPLE)) == Ok(15)
  {
    assert AfterHeader(SAMPLE) == 9;
    assert NextByte(SAMPLE, 12) == (1, 13);
    assert DecodeLength(SAMPLE, 13, 1) == (1, 13);
    assert DecodeLength(SAMPLE, 14, 1) == (1, 14);
    assert KeysScan(SAMPLE, 11) == Ok(15);
    assert KeysScan(SAMPLE, 10) == Ok(15);
  }

  /** The record at offset 15 is foo = bar. */
  lemma SampleRecord()
    ensures LookupRecords(SAMPLE, 15, "foo") == Ok(Some("bar"))
    ensures FirstKey(SAMPLE, 15) == Ok("foo")
  {
    SampleAsStrings();
    assert NextByte(SAMPLE, 15) == (3, 16);
    assert DecodeLength(SAMPLE, 16, 3) == (3, 16);
    assert TakeBytes(SAMPLE, 16, 3) == Ok((SAMPLE[16..19], 19));
    assert ReadLengthPrefixed(SAMPLE, 19) == Ok((SAMPLE[20..23], 23)) by {
      assert NextByte(SAMPLE, 19) == (3, 20);
      assert DecodeLength(SAMPLE, 20, 3) == (3, 20);
    }
  }

  /**
   * On the sample, GET foo reads bar and KEYS replies foo. GET's first
   * RESIZEDB skip swallows the second size byte, and the value type byte 0
   * is then read as the second size; KEYS reuses the size byte 1, so its
   * second skip consumes the type byte. Both scans stop at the record.
   */
  lemma SampleReads(dir: string, dbfilename: string)
    ensures RdbLookup(Some(dir), Some(dbfilename), Some(SAMPLE), "foo") == Ok(Some("bar"))
    ensures KeysReply(Some(SAMPLE)) == Ok(KeysFormat("foo"))
  {
    SampleLookupScan();
    SampleKeysScan();
    SampleRecord();
  }

  /**
   * GET of a key the sample does not hold reads the end opcode 0xFF as a key
   * length, decodes -1 and faults instead of giving null.
   */
  lemma SampleMissingKeyFaults(dir: string, dbfilename: string, key: string)
    requires key != "foo"
    ensures RdbLookup(Some(dir), Some(dbfilename), Some(SAMPLE), key) == Err(NegativeLength)
  {
    SampleLookupScan();
    assert LookupRecords(SAMPLE, 15, key) == LookupRecords(SAMPLE, 23, key) by {
      SampleAsStrings();
      assert NextByte(SAMPLE, 15) == (3, 16);
      assert DecodeLength(SAMPLE, 16, 3) == (3, 16);
      assert TakeBytes(SAMPLE, 16, 3) == Ok((SAMPLE[16..19], 19));
      assert ReadLengthPrefixed(SAMPLE, 19) == Ok((SAMPLE[20..23], 23)) by {
        assert NextByte(SAMPLE, 19) == (3, 20);
        assert DecodeLength(SAMPLE, 20, 3) == (3, 20);
      }
    }
    SpecialLengthFaults(SAMPLE, 23, key);
  }

  /** A reference reading of the sample: one record foo = bar, then the 0xFF fault. */
  lemma SampleRecordsRead()
    ensures RecordsRead(SAMPLE, 15) == ([Record(SAMPLE[16..19], SAMPLE[20..23])], Some(NegativeLength))
  {
    assert SAMPLE[15] == 3 && SAMPLE[19] == 3;
    ShortRecordRead(SAMPLE, 15);
    SpecialLengthFaults(SAMPLE, 23, "");
    assert [Record(SAMPLE[16..19], SAMPLE[20..23])] + [] == [Record(SAMPLE[16..19], SAMPLE[20..23])];
  }

  // A snapshot with a hash table of two: RESIZEDB 2 0, then a = b and
  // c = d, each behind its value type byte 0, then the end opcode

  const TWO_RECORDS: seq<Byte> := [82, 69, 68, 73, 83, 48, 48, 49, 49,
                                   0xFE, 0x00, 0xFB, 0x02, 0x00,
                                   0x00, 0x01, 97, 0x01, 98,
                                   0x00, 0x01, 99, 0x01, 100, 0xFF]

  /** GET's scan skips two bytes for the size 2, then the whole key a as the second size. */
  lemma TwoRecordsLookupScan()
    ensures LookupScan(TWO_RECORDS, AfterHeader(TWO_RECORDS)) == Ok(17)
  {
    assert AfterHeader(TWO_RECORDS) == 9;
    assert ReadLengthPrefixed(TWO_RECORDS, 12) == Ok((TWO_RECORDS[13..15], 15));
    assert ReadLengthPrefixed(TWO_RECORDS, 15) == Ok((TWO_RECORDS[16..17], 17)) by {
      assert NextByte(TWO_RECORDS, 15) == (1, 16);
      assert DecodeLength(TWO_RECORDS, 16, 1) == (1, 16);
    }
    assert LookupScan(TWO_RECORDS, 11) == Ok(17);
  }

  /** From offset 17 the record loop reads b as a key, the next type byte 0 as an empty value, then c = d. */
  lemma TwoRecordsRead()
    ensures RecordsRead(TWO_RECORDS, 17) ==
      ([Record(TWO_RECORDS[18..19], []), Record(TWO_RECORDS[21..22], TWO_RECORDS[23..24])], Some(NegativeLength))
  {
    assert TWO_RECORDS[17] == 1 && TWO_RECORDS[19] == 0;
    ShortRecordRead(TWO_RECORDS, 17);
    assert TWO_RECORDS[20] == 1 && TWO_RECORDS[22] == 1;
    ShortRecordRead(TWO_RECORDS, 20);
    SpecialLengthFaults(TWO_RECORDS, 24, "");
    var r1 := Record(TWO_RECORDS[18..19], TWO_RECORDS[20..20]);
    var r2 := Record(TWO_RECORDS[21..22], TWO_RECORDS[23..24]);
    assert TWO_RECORDS[20..20] == [];
    assert [r1] + ([r2] + []) == [r1, r2];
  }

  /**
   * GET a, a key the file holds, faults: the keys read are b and c, and the
   * reading ends at 0xFF.
   */
  lemma TwoRecordsLoseHeldKey(dir: string, dbfilename: string)
    ensures RdbLookup(Some(dir), Some(dbfilename), Some(TWO_RECORDS), "a") == Err(NegativeLength)
  {
    var r1 := Record(TWO_RECORDS[18..19], []);
    var r2 := Record(TWO_RECORDS[21..22], TWO_RECORDS[23..24]);
    assert AsString(r1.key) == "b" by { assert TWO_RECORDS[18..19] == [98]; }
    assert AsString(r2.key) == "c" by { assert TWO_RECORDS[21..22] == [99]; }
    TwoRecordsRead();
    TwoRecordsLookupScan();
    LookupIsFirstMatch(TWO_RECORDS, 17, "a");
    assert [r1, r2][1..] == [r2];
    assert [r2][1..] == [];
  }

  // ---------------------------------------------------------------------
  // The stream and the two readers as the source writes them

  /** A FileInputStream over the snapshot bytes. */
  class ByteStream {
    const data: seq<Byte>
    var pos: nat

    ghost predicate Valid()
      reads this
    {
      pos <= |data|
    }

    constructor (bytes: seq<Byte>)
      ensures Valid() && data == bytes && pos == 0
    {
      data := bytes;
      pos := 0;
    }

    /** read() */
    method Read() returns (b: int)
      requires Valid()
      modifies this
      ensures Valid() && (b, pos) == NextByte(data, old(pos))
    {
      if pos < |data| {
        b := data[pos];
        pos := pos + 1;
      } else {
        b := -1;
      }
    }

    /** read(byte[n]), whose bytes the readers never use. */
    method ReadArray(n: nat) returns (count: int)
      requires Valid() && n > 0
      modifies this
      ensures Valid() && pos == Min(old(pos) + n, |data|)
      ensures count == if old(pos) == |data| then -1 else pos - old(pos)
    {
      if pos == |data| {
        count := -1;
      } else {
        var end := Min(pos + n, |data|);
        count := end - pos;
        pos := end;
      }
    }

    /** readNBytes(len) */
    method ReadNBytes(len: int) returns (r: Result<seq<Byte>>)
      requires Valid()
      modifies this
      ensures Valid()
      ensures match TakeBytes(data, old(pos), len)
        case Ok((bytes, p)) => r == Ok(bytes) && pos == p
        case Err(e) => r == Err(e) && pos == old(pos)
    {
      if len < 0 {
        return Err(NegativeLength);
      }
      var end := Min(pos + len, |data|);
      r := Ok(data[pos..end]);
      pos := end;
    }
  }

  /** lengthEncoding(input, b) */
  method LengthEncoding(input: ByteStream, b: int) returns (length: int)
    requires input.Valid() && -1 <= b <= 255
    modifies input
    ensures input.Valid() && (length, input.pos) == DecodeLength(input.data, old(input.pos), b)
  {
    var first2bits := if b < 0 then 3 else b / 64;
    if first2bits == 0 {
      length := b % 64;
    } else if first2bits == 1 {
      var next := input.Read();
      length := (b % 64) * 256 + (if next < 0 then 255 else next);
    } else if first2bits == 2 {
      var bytes := input.ReadNBytes(4);
      length := Int32BigEndian(bytes.value);
    } else {
      length := -1;
    }
  }

  /** readNBytes(lengthEncoding(fis, fis.read())) */
  method ReadLengthPrefixedFrom(fis: ByteStream) returns (r: Result<seq<Byte>>)
    requires fis.Valid()
    modifies fis
    ensures fis.Valid()
    ensures match ReadLengthPrefixed(fis.data, old(fis.pos))
      case Ok((bytes, p)) => r == Ok(bytes) && fis.pos == p
      case Err(e) => r == Err(e)
  {
    var b := fis.Read();
    var length := LengthEncoding(fis, b);
    r := fis.ReadNBytes(length);
  }

  /** readValueFromRdb(key), over the snapshot's bytes, or None when the file is missing. */
  method ReadValueFromRdb(dir: Option<string>, dbfilename: Option<string>, file: Option<seq<Byte>>, key: string)
    returns (r: Result<Option<string>>)
    ensures r == RdbLookup(dir, dbfilename, file, key)
  {
    if dir.None? || dbfilename.None? {
      return Ok(None);
    }
    if file.None? {
      return Ok(None);
    }
    var data := file.value;
    var fis := new ByteStream(data);
    var _ := fis.ReadArray(5);
    var _ := fis.ReadArray(4);
    assert fis.pos == AfterHeader(data);
    while true
      invariant fis.Valid() && fis.data == data
      invariant LookupScan(data, AfterHeader(data)) == LookupScan(data, fis.pos)
      decreases |data| - fis.pos
    {
      ghost var start := fis.pos;
      var b := fis.Read();
      if b == -1 || b == 0xFF {
        assert LookupScan(data, start) == Ok(fis.pos);
        break;
      } else if b == 0xFE {
        var _ := fis.Read();
      } else if b == 0xFB {
        var skipped := ReadLengthPrefixedFrom(fis);
        if skipped.Err? {
          return Err(skipped.error);
        }
        skipped := ReadLengthPrefixedFrom(fis);
        if skipped.Err? {
          return Err(skipped.error);
        }
        assert LookupScan(data, start) == Ok(fis.pos);
        break;
      }
    }
    assert LookupScan(data, AfterHeader(data)) == Ok(fis.pos);
    while true
      invariant fis.Valid() && fis.data == data
      invariant RdbLookup(dir, dbfilename, file, key) == LookupRecords(data, fis.pos, key)
      decreases |data| - fis.pos
    {
      var b := fis.Read();
      if b == -1 {
        return Ok(None);
      }
      var strLength := LengthEncoding(fis, b);
      var bytes := fis.ReadNBytes(strLength);
      if bytes.Err? {
        return Err(bytes.error);
      }
      var readKey := AsString(bytes.value);
      if key == readKey {
        var valueBytes := ReadLengthPrefixedFrom(fis);
        if valueBytes.Err? {
          return Err(valueBytes.error);
        }
        return Ok(Some(AsString(valueBytes.value)));
      }
      var skipped := ReadLengthPrefixedFrom(fis);
      if skipped.Err? {
        return Err(skipped.error);
      }
    }
  }

  /** handleKeysCommand, up to the reply it writes. */
  method HandleKeysCommand(file: Option<seq<Byte>>) returns (r: Result<string>)
    ensures r == KeysReply(file)
  {
    if file.None? {
      return Err(FileNotFound);
    }
    var key := "foo";
    var data := file.value;
    var fis := new ByteStream(data);
    var _ := fis.ReadArray(5);
    var _ := fis.ReadArray(4);
    while true
      invariant fis.Valid() && fis.data == data
      invariant KeysScan(data, AfterHeader(data)) == KeysScan(data, fis.pos)
      decreases |data| - fis.pos
    {
      ghost var start := fis.pos;
      var b := fis.Read();
      if b == -1 || b == 0xFF {
        assert KeysScan(data, start) == Ok(fis.pos);
        break;
      } else if b == 0xFB {
        b := fis.Read();
        var length := LengthEncoding(fis, b);
        var skipped := fis.ReadNBytes(length);
        if skipped.Err? {
          return Err(skipped.error);
        }
        length := LengthEncoding(fis, b);
        skipped := fis.ReadNBytes(length);
        if skipped.Err? {
          return Err(skipped.error);
        }
        assert KeysScan(data, start) == Ok(fis.pos);
        break;
      }
    }
    assert KeysScan(data, AfterHeader(data)) == Ok(fis.pos);
    var b := fis.Read();
    if b != -1 {
      var strLength := LengthEncoding(fis, b);
      var bytes := fis.ReadNBytes(strLength);
      if bytes.Err? {
        return Err(bytes.error);
      }
      key := AsString(bytes.value);
    }
    return Ok(KeysFormat(key));
  }
}
