/** The bytes of an entry bundle (src/merkle/tiles.rs:97-150): for each entry a
    16-bit big-endian length and the data. */
module BundleCodec {
  import opened Rfc6962
  import opened Wrappers
  import opened Wal
  import opened Sequencer

  const MAX_ENTRY: nat := 0xFFFF

  datatype BundleError = EntryTooLarge | Truncated | LengthBeyondEnd

  function Item(entry: Entry): seq<byte> { BigEndian(|entry|, 2) + entry }

  function ItemsFrom(entries: seq<Entry>): seq<byte> {
    if entries == [] then [] else Item(entries[0]) + ItemsFrom(entries[1..])
  }

  predicate Encodable(entries: seq<Entry>) { forall i | 0 <= i < |entries| :: |entries[i]| <= MAX_ENTRY }

  /** Two bytes of length, the higher first, and the data. */
  lemma ItemLayout(entry: Entry)
    ensures var s := Item(entry);
            |s| == 2 + |entry| && s[0] == |entry| / 256 % 256 && s[1] == |entry| % 256 && s[2..] == entry
  {
    BigEndianAt(|entry|, 2, 0);
    BigEndianAt(|entry|, 2, 1);
  }

  /** `from_bytes`, as a function of the rest of the input. */
  function Decoded(data: seq<byte>): Result<seq<Entry>, BundleError>
    decreases |data|
  {
    if data == [] then Ok([])
    else if |data| < 2 then Err(Truncated)
    else
      var len := FromBigEndian(data[..2]);
      if 2 + len > |data| then Err(LengthBeyondEnd)
      else
        var rest := Decoded(data[2 + len..]);
        if rest.Err? then rest else Ok([data[2..2 + len]] + rest.value)
  }

  /** `to_bytes` fails exactly when an entry does not fit 16 bits of length. */
  method ToBytes(entries: seq<Entry>) returns (r: Result<seq<byte>, BundleError>)
    ensures r == if Encodable(entries) then Ok(ItemsFrom(entries)) else Err(EntryTooLarge)
  {
    var result := [];
    for i := 0 to |entries|
      invariant result + ItemsFrom(entries[i..]) == ItemsFrom(entries)
      invariant forall j | 0 <= j < i :: |entries[j]| <= MAX_ENTRY
    {
      hide Item;
      if |entries[i]| > MAX_ENTRY { return Err(EntryTooLarge); }
      assert entries[i..][1..] == entries[i + 1..];
      result := result + Item(entries[i]);
    }
    assert result + ItemsFrom([]) == result;
    return Ok(result);
  }

  /** What the loop in `from_bytes` returns once it has read some entries. */
  function Prepend(entries: seq<Entry>, rest: Result<seq<Entry>, BundleError>): Result<seq<Entry>, BundleError> {
    if rest.Err? then rest else Ok(entries + rest.value)
  }

  /** `from_bytes`. */
  method FromBytes(data: seq<byte>) returns (r: Result<seq<Entry>, BundleError>)
    ensures r == Decoded(data)
  {
    hide FromBigEndian;
    var entries, offset := [], 0;
    assert data[0..] == data;
    PrependNothing(Decoded(data));
    while offset < |data|
      invariant 0 <= offset <= |data|
      invariant Prepend(entries, Decoded(data[offset..])) == Decoded(data)
      decreases |data| - offset
    {
      hide Prepend;
      ghost var rest := data[offset..];
      if offset + 2 > |data| { return Err(Truncated); }
      var len := FromBigEndian(data[offset..offset + 2]);
      assert rest[..2] == data[offset..offset + 2];
      if offset + 2 + len > |data| { return Err(LengthBeyondEnd); }
      var entry := data[offset + 2..offset + 2 + len];
      assert rest[2..2 + len] == entry && rest[2 + len..] == data[offset + 2 + len..];
      PrependStep(entries, entry, Decoded(rest[2 + len..]));
      entries := entries + [entry];
      offset := offset + 2 + len;
    }
    assert data[offset..] == [] && entries + [] == entries;
    return Ok(entries);
  }

  lemma PrependNothing(rest: Result<seq<Entry>, BundleError>)
    ensures Prepend([], rest) == rest
  {
    var v := if rest.Ok? then rest.value else [];
    assert [] + v == v;
  }

  lemma PrependStep(entries: seq<Entry>, entry: Entry, rest: Result<seq<Entry>, BundleError>)
    ensures Prepend(entries, Prepend([entry], rest)) == Prepend(entries + [entry], rest)
  {
    var v := if rest.Ok? then rest.value else [];
    assert entries + ([entry] + v) == (entries + [entry]) + v;
  }

  /** Reading what was written. */
  lemma {:induction false} DecodeItems(entries: seq<Entry>)
    requires Encodable(entries)
    ensures Decoded(ItemsFrom(entries)) == Ok(entries)
    decreases |entries|
  {
    if entries != [] {
      var entry, rest := entries[0], ItemsFrom(entries[1..]);
      DecodeItems(entries[1..]);
      Pow256Values();
      BigEndianInverse(|entry|, 2);
      var data := ItemsFrom(entries);
      assert data == BigEndian(|entry|, 2) + entry + rest;
      assert data[..2] == BigEndian(|entry|, 2);
      assert data[2..2 + |entry|] == entry && data[2 + |entry|..] == rest;
      assert [entry] + entries[1..] == entries;
    }
  }

  /** Writing what was read: the decoder accepts nothing that the encoder would not
      have written. */
  lemma {:induction false} EncodeDecoded(data: seq<byte>)
    requires Decoded(data).Ok?
    ensures Encodable(Decoded(data).value) && ItemsFrom(Decoded(data).value) == data
    decreases |data|
  {
    if data != [] {
      var len := FromBigEndian(data[..2]);
      var entry, rest := data[2..2 + len], data[2 + len..];
      assert Decoded(data).value == [entry] + Decoded(rest).value;
      hide Decoded;
      EncodeDecoded(rest);
      ItemOfPrefix(data, len);
      assert ([entry] + Decoded(rest).value)[1..] == Decoded(rest).value;
    }
  }

  lemma ItemOfPrefix(data: seq<byte>, len: nat)
    requires |data| >= 2 && len == FromBigEndian(data[..2]) && 2 + len <= |data|
    ensures len <= MAX_ENTRY && Item(data[2..2 + len]) + data[2 + len..] == data
  {
    hide FromBigEndian, BigEndian;
    Pow256Values();
    FromBigEndianBound(data[..2]);
    BigEndianOfValue(data[..2]);
    assert data == data[..2] + data[2..2 + len] + data[2 + len..];
  }

  /** Bundle bytes and entry lists are in one-to-one correspondence. */
  lemma BundleBytesExact(entries: seq<Entry>, data: seq<byte>)
    ensures Decoded(data) == Ok(entries) <==> Encodable(entries) && ItemsFrom(entries) == data
  {
    hide Decoded, ItemsFrom;
    if Decoded(data) == Ok(entries) { EncodeDecoded(data); }
    if Encodable(entries) && ItemsFrom(entries) == data { DecodeItems(entries); }
  }
}
