/** Write-ahead log records (src/vindex/wal.rs:37-47, src/vindex/wal.rs:275-343).

    The checksum is a parameter: everything here holds for every function from
    byte strings to 32-bit values. */
module Wal {
  import opened Rfc6962

  type u32 = x: int | 0 <= x < 0x1_0000_0000
  type Checksum = seq<byte> -> u32

  const VERSION_LEGACY: byte := 2
  const VERSION_CRC: byte := 3

  type IndexKey = k: seq<byte> | |k| == 32 witness seq(32, _ => 0)

  datatype RawRecord = Record(index: nat, keys: seq<IndexKey>)

  /** Records that fit the format: a 64-bit index and at most 255 keys. */
  type WalRecord = r: RawRecord | r.index < 0x1_0000_0000_0000_0000 && |r.keys| < 256 witness Record(0, [])

  // ---- fixed-width integers ----

  function Pow256(k: nat): nat { if k == 0 then 1 else 256 * Pow256(k - 1) }

  /** The k low bytes of n, most significant first. */
  function BigEndian(n: nat, k: nat): (s: seq<byte>)
    ensures |s| == k
  {
    if k == 0 then [] else BigEndian(n / 256, k - 1) + [n % 256]
  }

  function FromBigEndian(s: seq<byte>): nat {
    if s == [] then 0 else 256 * FromBigEndian(s[..|s| - 1]) + s[|s| - 1]
  }

  lemma {:induction false} BigEndianInverse(n: nat, k: nat)
    requires n < Pow256(k)
    ensures FromBigEndian(BigEndian(n, k)) == n
  {
    if k > 0 {
      BigEndianInverse(n / 256, k - 1);
      assert BigEndian(n, k)[..k - 1] == BigEndian(n / 256, k - 1);
    }
  }

  lemma {:induction false} FromBigEndianBound(s: seq<byte>)
    ensures FromBigEndian(s) < Pow256(|s|)
  {
    if s != [] { FromBigEndianBound(s[..|s| - 1]); }
  }

  lemma {:induction false} BigEndianOfValue(s: seq<byte>)
    ensures BigEndian(FromBigEndian(s), |s|) == s
    decreases |s|
  {
    if s != [] {
      BigEndianOfValue(s[..|s| - 1]);
      assert s == s[..|s| - 1] + [s[|s| - 1]];
    }
  }

  /** The digit of n at place 256^e. */
  ghost predicate DigitAt(b: byte, n: nat, e: nat) { Pow256(e) > 0 && b == n / Pow256(e) % 256 }

  /** The bytes of n, most significant first. */
  ghost predicate MostFirst(s: seq<byte>, n: nat) {
    forall i | 0 <= i < |s| :: DigitAt(s[i], n, |s| - 1 - i)
  }

  /** The bytes of n, least significant first. */
  ghost predicate LeastFirst(s: seq<byte>, n: nat) {
    forall i | 0 <= i < |s| :: DigitAt(s[i], n, i)
  }

  lemma BytesOrdered(n: nat, k: nat)
    ensures MostFirst(BigEndian(n, k), n) && LeastFirst(LittleEndian4(n), n)
  {
    hide BigEndian, Pow256, DigitAt;
    var s, t := BigEndian(n, k), LittleEndian4(n);
    forall i | 0 <= i < |s| ensures DigitAt(s[i], n, |s| - 1 - i) { BigEndianAt(n, k, i); }
    forall i | 0 <= i < |t| ensures DigitAt(t[i], n, i) {
      BigEndianAt(n, 4, 3 - i);
      assert t[i] == BigEndian(n, 4)[3 - i];
    }
  }

  lemma {:induction false} BigEndianAt(n: nat, k: nat, i: nat)
    requires i < k
    ensures DigitAt(BigEndian(n, k)[i], n, k - 1 - i)
  {
    if i < k - 1 {
      BigEndianAt(n / 256, k - 1, i);
      DivideTwice(n, Pow256(k - 2 - i));
    }
  }

  lemma DivideTwice(n: nat, b: nat)
    requires b > 0
    ensures n / 256 / b == n / (256 * b)
  {
    var q, r := n / 256 / b, n / 256 % b;
    assert n / 256 == b * q + r;
    var rest := 256 * r + n % 256;
    assert n == (256 * b) * q + rest && 0 <= rest < 256 * b;
    QuotientUnique(n, 256 * b, q, rest);
  }

  lemma QuotientUnique(n: nat, b: nat, q: nat, r: nat)
    requires n == b * q + r && r < b
    ensures n / b == q
  {
    var q' := n / b;
    assert n == b * q' + n % b;
    assert q' < q ==> b * q >= b * (q' + 1);
    assert q < q' ==> b * q' >= b * (q + 1);
  }

  lemma Pow256Values()
    ensures Pow256(2) == 0x1_0000 && Pow256(4) == 0x1_0000_0000 && Pow256(8) == 0x1_0000_0000_0000_0000
  {
  }

  /** Little-endian 32-bit values are reversed big-endian ones. */
  function LittleEndian4(n: nat): (s: seq<byte>)
    ensures |s| == 4
  {
    var b := BigEndian(n, 4);
    [b[3], b[2], b[1], b[0]]
  }

  function FromLittleEndian4(s: seq<byte>): nat
    requires |s| == 4
  {
    FromBigEndian([s[3], s[2], s[1], s[0]])
  }

  lemma LittleEndian4Inverse(n: u32)
    ensures FromLittleEndian4(LittleEndian4(n)) == n
  {
    Pow256Values();
    BigEndianInverse(n, 4);
    var b := BigEndian(n, 4);
    assert [b[0], b[1], b[2], b[3]] == b;
  }

  // ---- records ----

  function JoinKeys(keys: seq<IndexKey>): (s: seq<byte>)
    ensures |s| == 32 * |keys|
  {
    if keys == [] then [] else JoinKeys(keys[..|keys| - 1]) + keys[|keys| - 1]
  }

  /** `count` keys of 32 bytes each. */
  function SplitKeys(s: seq<byte>, count: nat): (keys: seq<IndexKey>)
    requires |s| == 32 * count
    ensures |keys| == count
  {
    if count == 0 then [] else SplitKeys(s[..32 * (count - 1)], count - 1) + [s[32 * (count - 1)..]]
  }

  lemma {:induction false} SplitJoin(keys: seq<IndexKey>)
    ensures SplitKeys(JoinKeys(keys), |keys|) == keys
  {
    if keys != [] {
      var init, last := keys[..|keys| - 1], keys[|keys| - 1];
      SplitJoin(init);
      var s := JoinKeys(keys);
      assert s[..32 * |init|] == JoinKeys(init) && s[32 * |init|..] == last;
    }
  }

  /** Bytes that the checksum covers. */
  function Body(version: byte, r: WalRecord): (s: seq<byte>)
    ensures |s| == 10 + 32 * |r.keys|
  {
    [version] + BigEndian(r.index, 8) + [|r.keys|] + JoinKeys(r.keys)
  }

  /** `encode_entry`. */
  function Encode(crc: Checksum, r: WalRecord): (s: seq<byte>)
    ensures |s| == 14 + 32 * |r.keys|
  {
    var body := Body(VERSION_CRC, r);
    body + LittleEndian4(crc(body))
  }

  /** Outcome of `next_entry` at a position. */
  datatype Scan = Eof | Corrupt | Entry(record: WalRecord, next: nat)

  /** `next_entry`: the record at a byte position, and the position after it. */
  function Next(crc: Checksum, file: seq<byte>, pos: nat): (r: Scan)
    requires pos <= |file|
    ensures r.Entry? ==> pos < r.next <= |file|
  {
    var rest := |file| - pos;
    if rest == 0 then Eof
    else if file[pos] != VERSION_LEGACY && file[pos] != VERSION_CRC then Corrupt
    else if rest < 10 then Corrupt
    else
      var count: nat := file[pos + 9];
      var size := 10 + 32 * count;
      if rest < size then Corrupt
      else
        FromBigEndianBound(file[pos + 1..pos + 9]);
        Pow256Values();
        var record := Record(FromBigEndian(file[pos + 1..pos + 9]), SplitKeys(file[pos + 10..pos + size], count));
        if file[pos] == VERSION_LEGACY then Entry(record, pos + size)
        else if rest < size + 4 then Corrupt
        else if FromLittleEndian4(file[pos + size..pos + size + 4]) != crc(file[pos..pos + size]) then Corrupt
        else Entry(record, pos + size + 4)
  }

  /** A whole record is read back, wherever it stands. */
  lemma NextOfEncoded(crc: Checksum, r: WalRecord, before: seq<byte>, after: seq<byte>)
    ensures Next(crc, before + Encode(crc, r) + after, |before|) == Entry(r, |before| + |Encode(crc, r)|)
  {
    hide BigEndian, FromBigEndian, JoinKeys, SplitKeys, LittleEndian4, FromLittleEndian4;
    var file, pos, body := before + Encode(crc, r) + after, |before|, Body(VERSION_CRC, r);
    var count := |r.keys|;
    var size := 10 + 32 * count;
    assert file[pos..pos + size] == body;
    assert file[pos + size..pos + size + 4] == LittleEndian4(crc(body));
    assert file[pos] == body[0] && file[pos + 9] == body[9] == count;
    assert file[pos + 1..pos + 9] == BigEndian(r.index, 8);
    assert file[pos + 10..pos + size] == JoinKeys(r.keys);
    Pow256Values();
    BigEndianInverse(r.index, 8);
    SplitJoin(r.keys);
    LittleEndian4Inverse(crc(body));
  }

  /** A proper prefix of a record is never taken for a record. */
  lemma NextOfTorn(crc: Checksum, r: WalRecord, before: seq<byte>, k: nat)
    requires k < |Encode(crc, r)|
    ensures Next(crc, before + Encode(crc, r)[..k], |before|) == if k == 0 then Eof else Corrupt
  {
  }

  lemma LittleEndian4OfValue(s: seq<byte>)
    requires |s| == 4
    ensures LittleEndian4(FromLittleEndian4(s)) == s
  {
    BigEndianOfValue([s[3], s[2], s[1], s[0]]);
  }

  lemma {:induction false} JoinSplit(s: seq<byte>, count: nat)
    requires |s| == 32 * count
    ensures JoinKeys(SplitKeys(s, count)) == s
  {
    if count > 0 {
      var init := s[..32 * (count - 1)];
      JoinSplit(init, count - 1);
      assert SplitKeys(s, count)[..count - 1] == SplitKeys(init, count - 1);
      assert s == init + s[32 * (count - 1)..];
    }
  }

  lemma {:induction false} JoinKeysAt(keys: seq<IndexKey>, j: nat)
    requires j < |keys|
    ensures JoinKeys(keys)[32 * j..32 * (j + 1)] == keys[j]
  {
    if j < |keys| - 1 { JoinKeysAt(keys[..|keys| - 1], j); }
  }

  /** The bytes of a record: version 3, the index and the number of keys, the keys, and
      the checksum of all that with its least significant byte first. */
  lemma RecordLayout(crc: Checksum, r: WalRecord)
    ensures var s, n := Encode(crc, r), 10 + 32 * |r.keys|;
            && |s| == n + 4 && s[0] == 3 && s[9] == |r.keys|
            && MostFirst(s[1..9], r.index)
            && (forall j | 0 <= j < |r.keys| :: s[10 + 32 * j..10 + 32 * (j + 1)] == r.keys[j])
            && LeastFirst(s[n..], crc(s[..n]))
  {
    var s, body, n := Encode(crc, r), Body(VERSION_CRC, r), 10 + 32 * |r.keys|;
    hide BigEndian, JoinKeys, LittleEndian4, MostFirst, LeastFirst;
    assert s[..n] == body && s[1..9] == BigEndian(r.index, 8) && s[n..] == LittleEndian4(crc(body));
    BytesOrdered(r.index, 8);
    BytesOrdered(crc(body), 4);
    forall j | 0 <= j < |r.keys| ensures s[10 + 32 * j..10 + 32 * (j + 1)] == r.keys[j] { JoinKeysAt(r.keys, j); }
  }

  /** The reader accepts exactly what a writer of either version writes: a record of
      version 3, or one of version 2 without a checksum. */
  lemma NextExact(crc: Checksum, file: seq<byte>, pos: nat, r: WalRecord, next: nat)
    requires pos <= |file|
    ensures Next(crc, file, pos) == Entry(r, next)
            <==> pos <= next <= |file| && (file[pos..next] == Encode(crc, r) || file[pos..next] == Body(2, r))
    ensures Next(crc, file, pos) == Eof <==> pos == |file|
  {
    assert Next(crc, file, pos) == Eof <==> pos == |file|;
    hide *;
    if Next(crc, file, pos) == Entry(r, next) { NextWasWritten(crc, file, pos); }
    if pos <= next <= |file| {
      var before, after := file[..pos], file[next..];
      assert file == before + file[pos..next] + after;
      if file[pos..next] == Encode(crc, r) { NextOfEncoded(crc, r, before, after); }
      if file[pos..next] == Body(2, r) { NextOfLegacy(crc, r, before, after); }
    }
  }

  lemma NextOfLegacy(crc: Checksum, r: WalRecord, before: seq<byte>, after: seq<byte>)
    ensures Next(crc, before + Body(2, r) + after, |before|) == Entry(r, |before| + |Body(2, r)|)
  {
    hide BigEndian, FromBigEndian, JoinKeys, SplitKeys, LittleEndian4, FromLittleEndian4;
    var file, pos, body := before + Body(2, r) + after, |before|, Body(2, r);
    var count := |r.keys|;
    var size := 10 + 32 * count;
    assert file[pos..pos + size] == body;
    assert file[pos] == body[0] && file[pos + 9] == body[9] == count;
    assert file[pos + 1..pos + 9] == BigEndian(r.index, 8);
    assert file[pos + 10..pos + size] == JoinKeys(r.keys);
    Pow256Values();
    BigEndianInverse(r.index, 8);
    SplitJoin(r.keys);
  }

  lemma NextWasWritten(crc: Checksum, file: seq<byte>, pos: nat)
    requires pos <= |file| && Next(crc, file, pos).Entry?
    ensures var Entry(r, next) := Next(crc, file, pos);
            pos <= next <= |file| && (file[pos..next] == Encode(crc, r) || file[pos..next] == Body(2, r))
  {
    hide BigEndian, FromBigEndian, JoinKeys, SplitKeys, LittleEndian4, FromLittleEndian4;
    var count: nat := file[pos + 9];
    var size := 10 + 32 * count;
    var index, keys := file[pos + 1..pos + 9], file[pos + 10..pos + size];
    BigEndianOfValue(index);
    JoinSplit(keys, count);
    assert file[pos..pos + size] == [file[pos]] + index + [file[pos + 9]] + keys;
    if file[pos] == VERSION_CRC {
      LittleEndian4OfValue(file[pos + size..pos + size + 4]);
      assert file[pos..pos + size + 4] == file[pos..pos + size] + file[pos + size..pos + size + 4];
    }
  }

  // ---- whole files ----

  function EncodeAll(crc: Checksum, records: seq<WalRecord>): seq<byte> {
    if records == [] then [] else EncodeAll(crc, records[..|records| - 1]) + Encode(crc, records[|records| - 1])
  }

  /** End offset of the first i records. */
  function Offset(crc: Checksum, records: seq<WalRecord>, i: nat): nat
    requires i <= |records|
  {
    |EncodeAll(crc, records[..i])|
  }

  /** Encoding is incremental, and a prefix of the records is a prefix of the bytes. */
  lemma {:induction false} EncodePrefix(crc: Checksum, records: seq<WalRecord>, i: nat)
    requires i <= |records|
    ensures EncodeAll(crc, records[..i]) <= EncodeAll(crc, records)
    ensures i < |records| ==> EncodeAll(crc, records[..i + 1]) == EncodeAll(crc, records[..i]) + Encode(crc, records[i])
    decreases |records| - i
  {
    hide Encode;
    if i == |records| {
      assert records[..i] == records;
    } else {
      EncodePrefix(crc, records, i + 1);
      assert records[..i + 1][..i] == records[..i];
    }
  }

  /** All records that a scan from a position returns before it stops. */
  function ScanFrom(crc: Checksum, file: seq<byte>, pos: nat): seq<WalRecord>
    requires pos <= |file|
    decreases |file| - pos
  {
    match Next(crc, file, pos)
    case Entry(r, next) => [r] + ScanFrom(crc, file, next)
    case _ => []
  }

  /** Whole records followed by a proper prefix of one more. */
  ghost predicate WholeAndTorn(crc: Checksum, file: seq<byte>, records: seq<WalRecord>, torn: WalRecord, k: nat) {
    k < |Encode(crc, torn)| && file == EncodeAll(crc, records) + Encode(crc, torn)[..k]
  }

  /** What a scan meets at each record boundary of such a file. */
  lemma NextAtBoundary(crc: Checksum, file: seq<byte>, records: seq<WalRecord>, torn: WalRecord, k: nat, i: nat)
    requires WholeAndTorn(crc, file, records, torn, k) && i <= |records|
    ensures Offset(crc, records, i) <= |file|
    ensures var scan := Next(crc, file, Offset(crc, records, i));
            if i < |records| then scan == Entry(records[i], Offset(crc, records, i + 1))
            else !scan.Entry?
  {
    hide Next, Encode;
    var before := EncodeAll(crc, records[..i]);
    EncodePrefix(crc, records, i);
    if i == |records| {
      assert records[..i] == records;
      NextOfTorn(crc, torn, before, k);
    } else {
      EncodePrefix(crc, records, i + 1);
      var r, upTo := records[i], EncodeAll(crc, records[..i + 1]);
      assert file == before + Encode(crc, r) + file[|upTo|..];
      NextOfEncoded(crc, r, before, file[|upTo|..]);
    }
  }

  /** A scan of whole records and a torn one returns exactly the whole records. */
  lemma {:induction false} ScanWholeAndTorn(crc: Checksum, file: seq<byte>, records: seq<WalRecord>, torn: WalRecord, k: nat, i: nat)
    requires WholeAndTorn(crc, file, records, torn, k) && i <= |records|
    ensures Offset(crc, records, i) <= |file|
    ensures ScanFrom(crc, file, Offset(crc, records, i)) == records[i..]
    decreases |records| - i
  {
    hide Next, Encode, EncodeAll, WholeAndTorn, Offset;
    NextAtBoundary(crc, file, records, torn, k, i);
    if i < |records| {
      ScanWholeAndTorn(crc, file, records, torn, k, i + 1);
      assert records[i..] == [records[i]] + records[i + 1..];
    }
  }
}
