/** The bytes of an index snapshot (src/vindex/snapshot.rs:47-67 and 129-197).

    A snapshot lists the keys in whatever order the hash map yields them; `Rows`
    is such a listing.  All parse errors mean the same to the caller: the snapshot
    is treated as absent. */
module SnapshotCodec {
  import opened Bits
  import opened Rfc6962
  import opened Wrappers
  import opened Wal
  import opened Vindex

  type Rows = seq<(IndexKey, seq<nat>)>

  const MAGIC: seq<byte> := [0x56, 0x53, 0x4E, 0x50]
  const VERSION: byte := 1

  // ---- layout ----

  function IndexBytes(xs: seq<nat>): (s: seq<byte>)
    ensures |s| == 8 * |xs|
  {
    if xs == [] then [] else IndexBytes(xs[..|xs| - 1]) + BigEndian(xs[|xs| - 1], 8)
  }

  /** `idx_count` indices of 8 bytes each. */
  function Indices(s: seq<byte>, count: nat): (xs: seq<nat>)
    requires |s| == 8 * count
    ensures |xs| == count
  {
    if count == 0 then [] else Indices(s[..8 * (count - 1)], count - 1) + [FromBigEndian(s[8 * (count - 1)..])]
  }

  /** One key record.  The list length is cast to 32 bits. */
  function RowBytes(row: (IndexKey, seq<nat>)): (s: seq<byte>)
    ensures |s| == 36 + 8 * |row.1|
  {
    row.0 + BigEndian(|row.1|, 4) + IndexBytes(row.1)
  }

  function RowsBytes(rows: Rows): (s: seq<byte>)
    ensures |s| >= 36 * |rows|
  {
    if rows == [] then [] else RowBytes(rows[0]) + RowsBytes(rows[1..])
  }

  function Header(size: nat, count: nat): (s: seq<byte>)
    ensures |s| == 21
  {
    MAGIC + [VERSION] + BigEndian(size, 8) + BigEndian(count, 8)
  }

  function SnapshotBytes(crc: Checksum, size: nat, rows: Rows): seq<byte> {
    var body := Header(size, |rows|) + RowsBytes(rows);
    body + LittleEndian4(crc(body))
  }

  lemma {:induction false} IndexBytesAt(xs: seq<nat>, i: nat)
    requires i < |xs|
    ensures IndexBytes(xs)[8 * i..8 * (i + 1)] == BigEndian(xs[i], 8)
  {
    hide BigEndian;
    if i < |xs| - 1 { IndexBytesAt(xs[..|xs| - 1], i); }
  }

  /** The bytes of one row: the key, the number of its indices, the indices. */
  lemma RowLayout(row: (IndexKey, seq<nat>))
    ensures var s := RowBytes(row);
            && |s| == 36 + 8 * |row.1| && s[..32] == row.0 && MostFirst(s[32..36], |row.1|)
            && forall i | 0 <= i < |row.1| :: MostFirst(s[36 + 8 * i..36 + 8 * (i + 1)], row.1[i])
  {
    hide BigEndian, IndexBytes, MostFirst;
    var s := RowBytes(row);
    BytesOrdered(|row.1|, 4);
    assert s[32..36] == BigEndian(|row.1|, 4);
    forall i | 0 <= i < |row.1| ensures MostFirst(s[36 + 8 * i..36 + 8 * (i + 1)], row.1[i]) {
      IndexBytesAt(row.1, i);
      assert s[36 + 8 * i..36 + 8 * (i + 1)] == IndexBytes(row.1)[8 * i..8 * (i + 1)];
      BytesOrdered(row.1[i], 8);
    }
  }

  /** The bytes of a snapshot: "VSNP", version 1, the tree size, the number of rows, the
      rows, and the checksum of all that with its least significant byte first. */
  lemma SnapshotLayout(crc: Checksum, size: nat, rows: Rows)
    ensures var s := SnapshotBytes(crc, size, rows);
            var n := |s| - 4;
            && n == 21 + |RowsBytes(rows)| && s[..5] == [0x56, 0x53, 0x4E, 0x50, 1]
            && MostFirst(s[5..13], size) && MostFirst(s[13..21], |rows|)
            && s[21..n] == RowsBytes(rows) && LeastFirst(s[n..], crc(s[..n]))
  {
    hide BigEndian, RowsBytes, LittleEndian4, MostFirst, LeastFirst;
    var s, body := SnapshotBytes(crc, size, rows), Header(size, |rows|) + RowsBytes(rows);
    assert s[..|body|] == body && s[|body|..] == LittleEndian4(crc(body));
    assert s[5..13] == BigEndian(size, 8) && s[13..21] == BigEndian(|rows|, 8);
    BytesOrdered(size, 8);
    BytesOrdered(|rows|, 8);
    BytesOrdered(crc(body), 4);
  }

  // ---- listings of a map ----

  function MapOf(rows: Rows): Index {
    if rows == [] then map[] else MapOf(rows[..|rows| - 1])[rows[|rows| - 1].0 := rows[|rows| - 1].1]
  }

  ghost predicate Duplicates(rows: Rows) { exists a, b :: 0 <= a < b < |rows| && rows[a].0 == rows[b].0 }

  /** The rows list every key of the map once. */
  ghost predicate Lists(rows: Rows, m: Index) { !Duplicates(rows) && MapOf(rows) == m }

  /** Some row carries the key. */
  ghost predicate HasRow(rows: Rows, key: IndexKey) { exists i :: 0 <= i < |rows| && rows[i].0 == key }

  lemma {:induction false} MapOfKeys(rows: Rows, key: IndexKey)
    ensures key in MapOf(rows) <==> HasRow(rows, key)
  {
    if rows != [] {
      var init, last := rows[..|rows| - 1], rows[|rows| - 1];
      assert rows == init + [last];
      MapOfKeys(init, key);
      assert last == rows[|rows| - 1];
      assert HasRow(rows, key) <==> HasRow(init, key) || key == last.0 by { HasRowSnoc(init, last, key); }
    }
  }

  lemma HasRowSnoc(init: Rows, last: (IndexKey, seq<nat>), key: IndexKey)
    ensures HasRow(init + [last], key) <==> HasRow(init, key) || key == last.0
  {
    var rows := init + [last];
    assert rows[|init|] == last;
    if HasRow(init, key) { var i :| 0 <= i < |init| && init[i].0 == key; assert rows[i].0 == key; }
  }

  lemma {:induction false} MapOfValue(rows: Rows, i: nat)
    requires !Duplicates(rows) && i < |rows|
    ensures rows[i].0 in MapOf(rows) && MapOf(rows)[rows[i].0] == rows[i].1
    decreases |rows|
  {
    var init, last := rows[..|rows| - 1], rows[|rows| - 1];
    if i < |rows| - 1 {
      assert rows[i].0 != rows[|rows| - 1].0;
      NoDuplicatesInit(rows);
      MapOfValue(init, i);
    }
  }

  lemma NoDuplicatesInit(rows: Rows)
    requires !Duplicates(rows) && rows != []
    ensures !Duplicates(rows[..|rows| - 1]) && !HasRow(rows[..|rows| - 1], rows[|rows| - 1].0)
  {
  }

  lemma {:induction false} MapOfSize(rows: Rows)
    requires !Duplicates(rows)
    ensures |MapOf(rows)| == |rows|
    decreases |rows|
  {
    hide Duplicates, HasRow;
    if rows != [] {
      var init, last := rows[..|rows| - 1], rows[|rows| - 1];
      NoDuplicatesInit(rows);
      MapOfSize(init);
      MapOfKeys(init, last.0);
      assert MapOf(rows).Keys == MapOf(init).Keys + {last.0};
    }
  }

  /** A listing without duplicates determines its map row by row. */
  lemma MapOfExact(rows: Rows)
    requires !Duplicates(rows)
    ensures |MapOf(rows)| == |rows|
    ensures forall key :: key in MapOf(rows) <==> HasRow(rows, key)
    ensures forall i | 0 <= i < |rows| :: rows[i].0 in MapOf(rows) && MapOf(rows)[rows[i].0] == rows[i].1
  {
    hide Duplicates, HasRow, MapOf;
    MapOfSize(rows);
    forall key ensures key in MapOf(rows) <==> HasRow(rows, key) { MapOfKeys(rows, key); }
    forall i | 0 <= i < |rows| ensures rows[i].0 in MapOf(rows) && MapOf(rows)[rows[i].0] == rows[i].1 {
      MapOfValue(rows, i);
    }
  }

  /** Strictly increasing indices below the tree size. */
  ghost predicate Ordered(xs: seq<nat>, size: nat) {
    && (forall i | 0 <= i < |xs| :: xs[i] < size)
    && forall i | 0 < i < |xs| :: xs[i - 1] < xs[i]
  }

  /** What a snapshot can hold. */
  ghost predicate Storable(size: nat, m: Index) {
    && size < U64_LIMIT && |m| < U64_LIMIT
    && forall key | key in m :: Ordered(m[key], size) && |m[key]| < 0x1_0000_0000
  }

  // ---- parsing ----

  ghost function ParsedRows(s: seq<byte>, count: nat, size: nat): Option<Rows>
    decreases count
  {
    if count == 0 then (if s == [] then Some([]) else None)
    else if |s| < 36 then None
    else
      var n := FromBigEndian(s[32..36]);
      if |s| < 36 + 8 * n then None
      else
        var xs := Indices(s[36..36 + 8 * n], n);
        if !Ordered(xs, size) then None
        else PrependRow((s[..32], xs), ParsedRows(s[36 + 8 * n..], count - 1, size))
  }

  function PrependRow(row: (IndexKey, seq<nat>), rest: Option<Rows>): Option<Rows> {
    if rest.None? then None else Some([row] + rest.value)
  }

  /** `parse_snapshot`, as a function. */
  ghost function Parsed(crc: Checksum, data: seq<byte>): Option<(nat, Index)> {
    if |data| < 25 then None
    else
      var body := data[..|data| - 4];
      if crc(body) != FromLittleEndian4(data[|data| - 4..]) then None
      else if body[..4] != MAGIC || body[4] != VERSION then None
      else
        var size, count := FromBigEndian(body[5..13]), FromBigEndian(body[13..21]);
        if count > (|body| - 21) / 36 then None
        else
          var rows := ParsedRows(body[21..], count, size);
          if rows.None? || Duplicates(rows.value) then None else Some((size, MapOf(rows.value)))
  }

  // ---- parsing what was written ----

  lemma {:induction false} IndicesInverse(xs: seq<nat>)
    requires forall i | 0 <= i < |xs| :: xs[i] < U64_LIMIT
    ensures Indices(IndexBytes(xs), |xs|) == xs
  {
    if xs != [] {
      var init, last := xs[..|xs| - 1], xs[|xs| - 1];
      IndicesInverse(init);
      Pow256Values();
      BigEndianInverse(last, 8);
      var s := IndexBytes(xs);
      assert s[..8 * |init|] == IndexBytes(init) && s[8 * |init|..] == BigEndian(last, 8);
    }
  }

  ghost predicate RowOk(row: (IndexKey, seq<nat>), size: nat) { Ordered(row.1, size) && |row.1| < 0x1_0000_0000 }

  lemma ParseOneRow(row: (IndexKey, seq<nat>), rest: seq<byte>, size: nat)
    requires RowOk(row, size) && size < U64_LIMIT
    ensures var s, n := RowBytes(row) + rest, |row.1|;
            && s[..32] == row.0 && FromBigEndian(s[32..36]) == n
            && s[36..36 + 8 * n] == IndexBytes(row.1) && Indices(IndexBytes(row.1), n) == row.1
            && s[36 + 8 * n..] == rest
  {
    hide BigEndian, FromBigEndian, IndexBytes, Indices;
    var s, n := RowBytes(row) + rest, |row.1|;
    Pow256Values();
    BigEndianInverse(n, 4);
    IndicesInverse(row.1);
    assert s[32..36] == BigEndian(n, 4);
  }

  lemma {:induction false} ParseRowsBytes(rows: Rows, size: nat)
    requires size < U64_LIMIT && forall i | 0 <= i < |rows| :: RowOk(rows[i], size)
    ensures ParsedRows(RowsBytes(rows), |rows|, size) == Some(rows)
    decreases |rows|
  {
    hide RowBytes, FromBigEndian, Indices, IndexBytes, Ordered;
    if rows != [] {
      ParseRowsBytes(rows[1..], size);
      ParseOneRow(rows[0], RowsBytes(rows[1..]), size);
      assert [rows[0]] + rows[1..] == rows;
    }
  }

  lemma HeaderFields(size: nat, count: nat, rest: seq<byte>)
    requires size < U64_LIMIT && count < U64_LIMIT
    ensures var body := Header(size, count) + rest;
            && body[..4] == MAGIC && body[4] == VERSION && body[21..] == rest
            && FromBigEndian(body[5..13]) == size && FromBigEndian(body[13..21]) == count
  {
    hide BigEndian, FromBigEndian;
    var body := Header(size, count) + rest;
    Pow256Values();
    BigEndianInverse(size, 8);
    BigEndianInverse(count, 8);
    assert body[5..13] == BigEndian(size, 8) && body[13..21] == BigEndian(count, 8);
  }

  lemma ParseWritten(crc: Checksum, size: nat, rows: Rows)
    requires !Duplicates(rows) && size < U64_LIMIT && |rows| < U64_LIMIT
    requires forall i | 0 <= i < |rows| :: RowOk(rows[i], size)
    ensures Parsed(crc, SnapshotBytes(crc, size, rows)) == Some((size, MapOf(rows)))
  {
    hide FromBigEndian, Header, ParsedRows, RowsBytes, MapOf, Duplicates, LittleEndian4, FromLittleEndian4;
    var body, data := Header(size, |rows|) + RowsBytes(rows), SnapshotBytes(crc, size, rows);
    HeaderFields(size, |rows|, RowsBytes(rows));
    LittleEndian4Inverse(crc(body));
    assert data[..|data| - 4] == body && data[|data| - 4..] == LittleEndian4(crc(body));
    ParseRowsBytes(rows, size);
  }

  // ---- whatever is parsed was written ----

  lemma {:induction false} IndexBytesInverse(s: seq<byte>, count: nat)
    requires |s| == 8 * count
    ensures IndexBytes(Indices(s, count)) == s
    decreases count
  {
    if count > 0 {
      var init, last := s[..8 * (count - 1)], s[8 * (count - 1)..];
      IndexBytesInverse(init, count - 1);
      BigEndianOfValue(last);
      var xs := Indices(s, count);
      assert xs[..|xs| - 1] == Indices(init, count - 1);
      assert s == init + last;
    }
  }

  lemma {:induction false} ParsedRowsWritten(s: seq<byte>, count: nat, size: nat)
    requires ParsedRows(s, count, size).Some?
    ensures var rows := ParsedRows(s, count, size).value;
            && |rows| == count && RowsBytes(rows) == s
            && forall i | 0 <= i < |rows| :: RowOk(rows[i], size)
    decreases count
  {
    if count > 0 {
      var n := FromBigEndian(s[32..36]);
      var xs, rest := Indices(s[36..36 + 8 * n], n), s[36 + 8 * n..];
      var row := (s[..32], xs);
      assert ParsedRows(s, count, size) == PrependRow(row, ParsedRows(rest, count - 1, size));
      assert Ordered(xs, size);
      hide ParsedRows, Ordered, RowsBytes, RowBytes, Indices, FromBigEndian;
      ParsedRowsWritten(rest, count - 1, size);
      RowWritten(s, n);
      RowsWritten(row, ParsedRows(rest, count - 1, size).value, rest, size);
    }
  }

  lemma RowsWritten(row: (IndexKey, seq<nat>), rows: Rows, rest: seq<byte>, size: nat)
    requires RowOk(row, size) && RowsBytes(rows) == rest && forall i | 0 <= i < |rows| :: RowOk(rows[i], size)
    ensures var all := [row] + rows;
            RowsBytes(all) == RowBytes(row) + rest && forall i | 0 <= i < |all| :: RowOk(all[i], size)
  {
  }

  lemma RowWritten(s: seq<byte>, n: nat)
    requires |s| >= 36 && n == FromBigEndian(s[32..36]) && |s| >= 36 + 8 * n
    ensures n < 0x1_0000_0000
    ensures RowBytes((s[..32], Indices(s[36..36 + 8 * n], n))) + s[36 + 8 * n..] == s
  {
    hide BigEndian, FromBigEndian, Indices, IndexBytes;
    Pow256Values();
    FromBigEndianBound(s[32..36]);
    BigEndianOfValue(s[32..36]);
    IndexBytesInverse(s[36..36 + 8 * n], n);
    assert s == s[..32] + s[32..36] + s[36..36 + 8 * n] + s[36 + 8 * n..];
  }

  lemma LittleEndian4OfValue(s: seq<byte>)
    requires |s| == 4
    ensures LittleEndian4(FromLittleEndian4(s)) == s
  {
    hide BigEndian, FromBigEndian;
    BigEndianOfValue([s[3], s[2], s[1], s[0]]);
  }

  lemma HeaderWritten(body: seq<byte>)
    requires |body| >= 21 && body[..4] == MAGIC && body[4] == VERSION
    ensures var size, count := FromBigEndian(body[5..13]), FromBigEndian(body[13..21]);
            size < U64_LIMIT && count < U64_LIMIT && Header(size, count) + body[21..] == body
  {
    hide BigEndian, FromBigEndian;
    Pow256Values();
    FromBigEndianBound(body[5..13]);
    FromBigEndianBound(body[13..21]);
    BigEndianOfValue(body[5..13]);
    BigEndianOfValue(body[13..21]);
    assert body == body[..4] + [body[4]] + body[5..13] + body[13..21] + body[21..];
  }

  /** A parsed snapshot is storable, and its bytes are a written listing of its map. */
  lemma ParsedWasWritten(crc: Checksum, data: seq<byte>) returns (rows: Rows)
    requires Parsed(crc, data).Some?
    ensures var (size, m) := Parsed(crc, data).value;
            Storable(size, m) && Lists(rows, m) && SnapshotBytes(crc, size, rows) == data
  {
    hide FromBigEndian, Header, ParsedRows, RowsBytes, MapOf, Duplicates, LittleEndian4, FromLittleEndian4, Ordered;
    var body := data[..|data| - 4];
    var size, count := FromBigEndian(body[5..13]), FromBigEndian(body[13..21]);
    rows := ParsedRows(body[21..], count, size).value;
    HeaderWritten(body);
    ParsedRowsWritten(body[21..], count, size);
    LittleEndian4OfValue(data[|data| - 4..]);
    assert data == body + data[|data| - 4..];
    RowsStorable(size, rows);
  }

  lemma RowsStorable(size: nat, rows: Rows)
    requires !Duplicates(rows) && size < U64_LIMIT && |rows| < U64_LIMIT
    ensures Storable(size, MapOf(rows)) <==> forall i | 0 <= i < |rows| :: RowOk(rows[i], size)
  {
    MapOfExact(rows);
    hide Ordered, MapOf, Duplicates;
    var m := MapOf(rows);
    if Storable(size, m) {
      forall i | 0 <= i < |rows| ensures RowOk(rows[i], size) { assert rows[i].0 in m; }
    }
  }

  /** Parsing inverts writing, for every order in which the map is listed, exactly
      when the map is storable: ordered indices below the size, and no list so long
      that its 32-bit count is truncated. */
  lemma SnapshotRoundTrip(crc: Checksum, size: nat, m: Index, rows: Rows)
    requires Lists(rows, m)
    ensures Parsed(crc, SnapshotBytes(crc, size, rows)) == Some((size, m)) <==> Storable(size, m)
  {
    MapOfExact(rows);
    hide Parsed, SnapshotBytes, MapOf, Duplicates, Ordered;
    if Parsed(crc, SnapshotBytes(crc, size, rows)) == Some((size, m)) {
      var written := ParsedWasWritten(crc, SnapshotBytes(crc, size, rows));
    }
    if Storable(size, m) {
      RowsStorable(size, rows);
      ParseWritten(crc, size, rows);
    }
  }

  /** The live index is storable, so its snapshot restores it. */
  lemma IndexStorable(log: Keys, n: nat)
    requires n <= |log| && n < U64_LIMIT
    requires |IndexUpTo(log, n)| < U64_LIMIT
    requires forall key | key in IndexUpTo(log, n) :: |IndexUpTo(log, n)[key]| < 0x1_0000_0000
    ensures Storable(n, IndexUpTo(log, n))
  {
    hide IndexUpTo, Occurrences;
    var m := IndexUpTo(log, n);
    forall key | key in m
      ensures Ordered(m[key], n)
    {
      IndexMeaning(log, n, key);
      OccurrencesExact(log, n, key);
      var s := Occurrences(log, n, key);
      assert m[key] == Get(m, key) == s;
      forall i | 0 <= i < |s| ensures s[i] < n { assert s[i] in s; }
    }
  }

  // ---- the loops ----

  lemma IndexBytesSnoc(xs: seq<nat>, i: nat)
    requires i < |xs|
    ensures IndexBytes(xs[..i + 1]) == IndexBytes(xs[..i]) + BigEndian(xs[i], 8)
  {
    assert xs[..i + 1][..i] == xs[..i];
  }

  lemma {:induction false} RowsBytesSnoc(rows: Rows, row: (IndexKey, seq<nat>))
    ensures RowsBytes(rows + [row]) == RowsBytes(rows) + RowBytes(row)
    decreases |rows|
  {
    hide RowBytes;
    if rows != [] {
      RowsBytesSnoc(rows[1..], row);
      assert (rows + [row])[1..] == rows[1..] + [row];
    }
  }

  method WriteRow(row: (IndexKey, seq<nat>)) returns (buf: seq<byte>)
    ensures buf == RowBytes(row)
  {
    hide BigEndian;
    var (key, indices) := row;
    buf := key + BigEndian(|indices|, 4);
    ghost var start := buf;
    for i := 0 to |indices|
      invariant buf == start + IndexBytes(indices[..i])
    {
      IndexBytesSnoc(indices, i);
      buf := buf + BigEndian(indices[i], 8);
    }
    assert indices[..|indices|] == indices;
  }

  lemma ListMore(m: Index, rows: Rows, left: Index, key: IndexKey)
    requires Splits(m, MapOf(rows), left) && !Duplicates(rows) && key in left
    ensures !Duplicates(rows + [(key, left[key])])
    ensures MapOf(rows + [(key, left[key])]) == MapOf(rows)[key := left[key]]
  {
    hide MapOf;
    MovePair(m, MapOf(rows), left, key);
    hide Splits;
    MapOfKeys(rows, key);
    MapOfSnoc(rows, (key, left[key]));
    var rows' := rows + [(key, left[key])];
    forall a, b | 0 <= a < b < |rows'| ensures rows'[a].0 != rows'[b].0 { assert rows'[a] == rows[a]; }
  }

  lemma MapOfSnoc(rows: Rows, row: (IndexKey, seq<nat>))
    ensures MapOf(rows + [row]) == MapOf(rows)[row.0 := row.1]
  {
  }

  /** The bytes that `write_snapshot` writes: a listing of the map in some order. */
  method WriteSnapshot(crc: Checksum, size: nat, m: Index) returns (data: seq<byte>, ghost rows: Rows)
    ensures Lists(rows, m) && data == SnapshotBytes(crc, size, rows)
    ensures Parsed(crc, data) == Some((size, m)) <==> Storable(size, m)
  {
    var records;
    records, rows := WriteRows(m);
    hide Header, RowsBytes, LittleEndian4, Parsed, Storable, Lists;
    var buf := Header(size, |m|) + records;
    data := buf + LittleEndian4(crc(buf));
    SnapshotRoundTrip(crc, size, m, rows);
  }

  /** Some rows are listed, the others are left. */
  ghost predicate Listing(m: Index, rows: Rows, left: Index) { Splits(m, MapOf(rows), left) && !Duplicates(rows) }

  lemma ListingStart(m: Index)
    ensures Listing(m, [], m) && RowsBytes([]) == []
  {
  }

  lemma ListingStep(m: Index, rows: Rows, left: Index, key: IndexKey)
    requires Listing(m, rows, left) && key in left
    ensures Listing(m, rows + [(key, left[key])], left - {key}) && |left - {key}| < |left|
    ensures RowsBytes(rows + [(key, left[key])]) == RowsBytes(rows) + RowBytes((key, left[key]))
  {
    hide RowBytes, Splits, MapOf, Duplicates, RowsBytes;
    ListMore(m, rows, left, key);
    MovePair(m, MapOf(rows), left, key);
    RowsBytesSnoc(rows, (key, left[key]));
  }

  lemma ListingEnd(m: Index, rows: Rows, left: Index)
    requires Listing(m, rows, left) && left == map[]
    ensures Lists(rows, m) && |rows| == |m|
  {
    SplitsEnd(m, MapOf(rows), left);
    MapOfSize(rows);
  }

  /** The loop of `write_snapshot`. */
  method WriteRows(m: Index) returns (buf: seq<byte>, ghost rows: Rows)
    ensures Lists(rows, m) && |rows| == |m| && buf == RowsBytes(rows)
  {
    hide *;
    buf, rows := [], [];
    var left := m;
    ListingStart(m);
    while left != map[]
      invariant buf == RowsBytes(rows) && Listing(m, rows, left)
      decreases |left|
    {
      var key :| key in left;
      ListingStep(m, rows, left, key);
      var row := WriteRow((key, left[key]));
      buf := buf + row;
      rows := rows + [(key, left[key])];
      left := left - {key};
    }
    ListingEnd(m, rows, left);
  }

  lemma NoRows()
    ensures MapOf([]) == map[] && RowsBytes([]) == [] && !Duplicates([])
  {
  }

  lemma IndicesAt(s: seq<byte>, count: nat, i: nat)
    requires |s| == 8 * count && i < count
    ensures Indices(s, count)[i] == FromBigEndian(s[8 * i..8 * i + 8])
    decreases count
  {
    hide FromBigEndian;
    if i < count - 1 {
      IndicesAt(s[..8 * (count - 1)], count - 1, i);
      assert s[..8 * (count - 1)][8 * i..8 * i + 8] == s[8 * i..8 * i + 8];
    } else {
      assert s[8 * (count - 1)..] == s[8 * i..8 * i + 8];
    }
  }

  /** The inner loop of `parse_snapshot`. */
  method ReadIndices(s: seq<byte>, count: nat, size: nat) returns (r: Option<seq<nat>>)
    requires |s| == 8 * count
    ensures r == if Ordered(Indices(s, count), size) then Some(Indices(s, count)) else None
  {
    hide FromBigEndian, Indices;
    var indices: seq<nat> := [];
    ghost var all := Indices(s, count);
    for i := 0 to count
      invariant indices == all[..i] && Ordered(indices, size)
    {
      var v := FromBigEndian(s[8 * i..8 * i + 8]);
      IndicesAt(s, count, i);
      if v >= size || (|indices| > 0 && indices[|indices| - 1] >= v) { return None; }
      indices := indices + [v];
    }
    assert all[..count] == all;
    return Some(indices);
  }

  function PrependRows(rows: Rows, rest: Option<Rows>): Option<Rows> {
    if rest.None? then None else Some(rows + rest.value)
  }

  lemma PrependOneMore(rows: Rows, row: (IndexKey, seq<nat>), rest: Option<Rows>)
    ensures PrependRows(rows, PrependRow(row, rest)) == PrependRows(rows + [row], rest)
    ensures PrependRows([], rest) == rest
  {
    var v := if rest.Some? then rest.value else [];
    assert rows + ([row] + v) == (rows + [row]) + v && [] + v == v;
  }

  /** A key seen twice makes the whole listing a duplicate one. */
  lemma DuplicateFound(rows: Rows, row: (IndexKey, seq<nat>), rest: Rows)
    requires !Duplicates(rows)
    ensures row.0 in MapOf(rows) ==> Duplicates(rows + [row] + rest)
    ensures row.0 !in MapOf(rows) ==> !Duplicates(rows + [row])
  {
    MapOfKeys(rows, row.0);
    hide MapOf;
    var all := rows + [row] + rest;
    assert all[|rows|] == row;
    if row.0 in MapOf(rows) {
      var i :| 0 <= i < |rows| && rows[i].0 == row.0;
      assert all[i] == rows[i];
    }
    if row.0 !in MapOf(rows) {
      var more := rows + [row];
      forall a, b | 0 <= a < b < |more| ensures more[a].0 != more[b].0 { assert more[a] == rows[a]; }
    }
  }

  ghost function Checked(rows: Option<Rows>): Option<Index> {
    if rows.None? || Duplicates(rows.value) then None else Some(MapOf(rows.value))
  }

  /** The outer loop of `parse_snapshot`. */
  method ReadRows(body: seq<byte>, start: nat, count: nat, size: nat) returns (r: Option<Index>)
    requires start <= |body|
    ensures r == Checked(ParsedRows(body[start..], count, size))
  {
    hide FromBigEndian, Indices, MapOf, Duplicates, Ordered, PrependRow, PrependRows, HasRow;
    var index: Index, pos := map[], start;
    ghost var rows: Rows, all := [], ParsedRows(body[start..], count, size);
    NoRows();
    PrependOneMore([], (seq(32, _ => 0), []), all);
    for i := 0 to count
      invariant start <= pos <= |body|
      invariant index == MapOf(rows) && !Duplicates(rows)
      invariant all == PrependRows(rows, ParsedRows(body[pos..], count - i, size))
    {
      ghost var s := body[pos..];
      if |body| < pos + 36 { NoneFails(rows, s, count - i, size); return None; }
      var key, n := body[pos..pos + 32], FromBigEndian(body[pos + 32..pos + 36]);
      assert s[..32] == key && s[32..36] == body[pos + 32..pos + 36];
      pos := pos + 36;
      if |body| < pos + 8 * n { NoneFails(rows, s, count - i, size); return None; }
      assert s[36..36 + 8 * n] == body[pos..pos + 8 * n] && s[36 + 8 * n..] == body[pos + 8 * n..];
      var indices := ReadIndices(body[pos..pos + 8 * n], n, size);
      if indices.None? { NoneFails(rows, s, count - i, size); return None; }
      pos := pos + 8 * n;
      ghost var row, rest := (key, indices.value), ParsedRows(body[pos..], count - i - 1, size);
      PrependOneMore(rows, row, rest);
      DuplicateFound(rows, row, if rest.Some? then rest.value else []);
      if key in index { DuplicateFails(rows, row, rest); return None; }
      MapOfSnoc(rows, row);
      index, rows := index[key := indices.value], rows + [row];
    }
    LastRows(rows, body[pos..], size);
    return if pos == |body| then Some(index) else None;
  }

  lemma NoneFails(rows: Rows, s: seq<byte>, count: nat, size: nat)
    requires ParsedRows(s, count, size).None?
    ensures PrependRows(rows, ParsedRows(s, count, size)) == None
  {
  }

  lemma DuplicateFails(rows: Rows, row: (IndexKey, seq<nat>), rest: Option<Rows>)
    requires rest.Some? ==> Duplicates(rows + [row] + rest.value)
    ensures Checked(PrependRows(rows + [row], rest)) == None
  {
  }

  lemma LastRows(rows: Rows, s: seq<byte>, size: nat)
    ensures PrependRows(rows, ParsedRows(s, 0, size)) == if s == [] then Some(rows) else None
  {
    assert rows + [] == rows;
  }

  /** `parse_snapshot`. */
  method ParseSnapshot(crc: Checksum, data: seq<byte>) returns (r: Option<(nat, Index)>)
    ensures r == Parsed(crc, data)
    ensures r.Some? ==> Storable(r.value.0, r.value.1)
  {
    hide FromBigEndian, ParsedRows, MapOf, Duplicates, FromLittleEndian4, Storable;
    if Parsed(crc, data).Some? { ghost var written := ParsedWasWritten(crc, data); }
    if |data| < 25 { return None; }
    var body := data[..|data| - 4];
    if crc(body) != FromLittleEndian4(data[|data| - 4..]) { return None; }
    if body[..4] != MAGIC || body[4] != VERSION { return None; }
    var size, count := FromBigEndian(body[5..13]), FromBigEndian(body[13..21]);
    if count > (|body| - 21) / 36 { return None; }
    var index := ReadRows(body, 21, count, size);
    return if index.Some? then Some((size, index.value)) else None;
  }
}
