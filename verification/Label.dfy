/** Bit labels stored in bytes (src/vindex/prefix_tree.rs:40-209).

    The source compares and cuts labels a byte at a time.  `Bits` gives a label
    its meaning as a bit string, most significant bit first; each operation is
    proved to act on bits, and `BitsInjective` lets the prefix tree be modelled
    over bit strings. */
module Labels {

  datatype Label = Label(bytes: seq<bv8>, bitLen: nat)

  /** Bit k of a byte, counted from the most significant one. */
  predicate Bit(b: bv8, k: nat)
    requires k < 8
  {
    if k == 0 then b & 0x80 != 0 else if k == 1 then b & 0x40 != 0
    else if k == 2 then b & 0x20 != 0 else if k == 3 then b & 0x10 != 0
    else if k == 4 then b & 0x08 != 0 else if k == 5 then b & 0x04 != 0
    else if k == 6 then b & 0x02 != 0 else b & 0x01 != 0
  }

  /** `0xFF << (8 - r)`: the mask of the first r bits. */
  function Mask(r: nat): bv8
    requires 0 < r < 8
  {
    if r == 1 then 0x80 else if r == 2 then 0xC0 else if r == 3 then 0xE0 else if r == 4 then 0xF0
    else if r == 5 then 0xF8 else if r == 6 then 0xFC else 0xFE
  }

  /** The first r bits of a byte. */
  function Masked(b: bv8, r: nat): bv8
    requires 0 < r < 8
  {
    b & Mask(r)
  }

  /** `(a ^ b).leading_zeros()`. */
  function FirstDiff(a: bv8, b: bv8): nat { LeadingZeros(a ^ b) }

  /** `1 << (7 - k)`. */
  function BitValue(k: nat): bv8
    requires k < 8
  {
    if k == 0 then 0x80 else if k == 1 then 0x40 else if k == 2 then 0x20 else if k == 3 then 0x10
    else if k == 4 then 0x08 else if k == 5 then 0x04 else if k == 6 then 0x02 else 0x01
  }

  /** `u8::leading_zeros`. */
  function LeadingZeros(b: bv8): nat {
    if b & 0x80 != 0 then 0 else if b & 0x40 != 0 then 1 else if b & 0x20 != 0 then 2
    else if b & 0x10 != 0 then 3 else if b & 0x08 != 0 then 4 else if b & 0x04 != 0 then 5
    else if b & 0x02 != 0 then 6 else if b & 0x01 != 0 then 7 else 8
  }

  /** Masking keeps exactly the first r bits. */
  lemma MaskedByte(b: bv8, r: nat)
    requires 0 < r < 8
    ensures forall k: nat | k < 8 :: Bit(Masked(b, r), k) <==> k < r && Bit(b, k)
  {
  }

  lemma SetBit(b: bv8, j: nat, k: nat)
    requires j < 8 && k < 8
    ensures Bit(b | BitValue(j), k) <==> k == j || Bit(b, k)
  {
  }

  lemma ByteDetermined(a: bv8, b: bv8)
    requires forall k: nat | k < 8 :: Bit(a, k) == Bit(b, k)
    ensures a == b
  {
    assert Bit(a, 0) == Bit(b, 0) && Bit(a, 1) == Bit(b, 1) && Bit(a, 2) == Bit(b, 2) && Bit(a, 3) == Bit(b, 3);
    assert Bit(a, 4) == Bit(b, 4) && Bit(a, 5) == Bit(b, 5) && Bit(a, 6) == Bit(b, 6) && Bit(a, 7) == Bit(b, 7);
  }

  /** The first differing bit of two bytes is where their xor starts. */
  lemma FirstDifference(a: bv8, b: bv8)
    requires a != b
    ensures FirstDiff(a, b) < 8
    ensures Bit(a, FirstDiff(a, b)) != Bit(b, FirstDiff(a, b))
    ensures forall k: nat | k < FirstDiff(a, b) :: Bit(a, k) == Bit(b, k)
  {
    forall k: nat | k < FirstDiff(a, b)
      ensures Bit(a, k) == Bit(b, k)
    {
    }
  }

  // ---- labels as bit strings ----

  predicate Valid(l: Label) { |l.bytes| == (l.bitLen + 7) / 8 }

  /** `bit`, for any stored position. */
  predicate BitAt(l: Label, i: nat)
    requires i < 8 * |l.bytes|
  {
    Bit(l.bytes[i / 8], i % 8)
  }

  /** Valid, with the unused bits of the last byte cleared. */
  ghost predicate Clean(l: Label) { Valid(l) && PaddingClear(l) }

  ghost predicate PaddingClear(l: Label) { forall i: nat | l.bitLen <= i < 8 * |l.bytes| :: !BitAt(l, i) }

  ghost function Bits(l: Label): (s: seq<bool>)
    requires Valid(l)
    ensures |s| == l.bitLen
  {
    seq(l.bitLen, i requires 0 <= i < l.bitLen => BitAt(l, i))
  }

  /** Canonical labels are determined by their bits. */
  lemma BitsInjective(a: Label, b: Label)
    requires Clean(a) && Clean(b) && Bits(a) == Bits(b)
    ensures a == b
  {
    assert a.bitLen == b.bitLen by { assert |Bits(a)| == |Bits(b)|; }
    forall i | 0 <= i < |a.bytes|
      ensures a.bytes[i] == b.bytes[i]
    {
      forall k: nat | k < 8
        ensures Bit(a.bytes[i], k) == Bit(b.bytes[i], k)
      {
        var j := 8 * i + k;
        assert BitAt(a, j) == Bit(a.bytes[i], k) && BitAt(b, j) == Bit(b.bytes[i], k);
        if j < a.bitLen { assert Bits(a)[j] == Bits(b)[j]; }
      }
      ByteDetermined(a.bytes[i], b.bytes[i]);
    }
  }

  /** `prefix`. */
  function Prefix(l: Label, len: nat): Label
    requires Valid(l)
  {
    if len >= l.bitLen then l
    else if len == 0 then Label([], 0)
    else
      var full, rest := len / 8, len % 8;
      var bytes := l.bytes[..full] + if rest > 0 && full < |l.bytes| then [Masked(l.bytes[full], rest)] else [];
      Label(bytes, len)
  }

  lemma PrefixBits(l: Label, len: nat)
    requires Clean(l)
    ensures Clean(Prefix(l, len))
    ensures Bits(Prefix(l, len)) == if len < l.bitLen then Bits(l)[..len] else Bits(l)
  {
    hide Bit;
    if 0 < len < l.bitLen {
      var p, full, rest := Prefix(l, len), len / 8, len % 8;
      forall i: nat | i < 8 * |p.bytes|
        ensures BitAt(p, i) <==> i < len && BitAt(l, i)
      {
        if i / 8 == full { MaskedByte(l.bytes[full], rest); }
      }
    }
  }

  /** `append_bit`. */
  function AppendBit(l: Label, bit: bool): Label
    requires Valid(l)
  {
    var i := l.bitLen / 8;
    var bytes := if i >= |l.bytes| then l.bytes + [0] else l.bytes;
    Label(if bit then bytes[i := bytes[i] | BitValue(l.bitLen % 8)] else bytes, l.bitLen + 1)
  }

  lemma ZeroByte(k: nat)
    requires k < 8
    ensures !Bit(0, k)
  {
  }

  lemma AppendBitBits(l: Label, bit: bool)
    requires Clean(l)
    ensures Clean(AppendBit(l, bit))
    ensures Bits(AppendBit(l, bit)) == Bits(l) + [bit]
  {
    hide Bit;
    var a, n, at := AppendBit(l, bit), l.bitLen, l.bitLen / 8;
    forall i: nat | i < 8 * |a.bytes|
      ensures BitAt(a, i) <==> if i == n then bit else i < n && BitAt(l, i)
    {
      ZeroByte(i % 8);
      if i / 8 == at {
        SetBit(if at < |l.bytes| then l.bytes[at] else 0, n % 8, i % 8);
        assert i == n <==> i % 8 == n % 8;
      }
      if i < 8 * |l.bytes| && i >= n { assert !BitAt(l, i); }
    }
  }

  /** Length of the longest common prefix of two bit strings. */
  function CommonLen(a: seq<bool>, b: seq<bool>): (n: nat)
    ensures n <= |a| && n <= |b| && a[..n] == b[..n]
    ensures n < |a| && n < |b| ==> a[n] != b[n]
  {
    if a == [] || b == [] || a[0] != b[0] then 0
    else
      var n := CommonLen(a[1..], b[1..]);
      assert a[..n + 1] == [a[0]] + a[1..][..n] && b[..n + 1] == [b[0]] + b[1..][..n];
      n + 1
  }

  lemma CommonLenUnique(a: seq<bool>, b: seq<bool>, n: nat)
    requires n <= |a| && n <= |b|
    requires forall i | 0 <= i < n :: a[i] == b[i]
    requires n < |a| && n < |b| ==> a[n] != b[n]
    ensures CommonLen(a, b) == n
  {
  }

  /** If the first r bits of byte i are the first place where two labels differ,
      the xor of these bits gives the common length. */
  lemma CommonAtByte(a: Label, b: Label, i: nat, r: nat, x: bv8, y: bv8)
    requires Valid(a) && Valid(b) && r <= 8 && 8 * i + r <= a.bitLen && 8 * i + r <= b.bitLen
    requires i < |a.bytes| && i < |b.bytes| && a.bytes[..i] == b.bytes[..i] && x != y
    requires forall k: nat | k < 8 :: Bit(x, k) <==> k < r && Bit(a.bytes[i], k)
    requires forall k: nat | k < 8 :: Bit(y, k) <==> k < r && Bit(b.bytes[i], k)
    ensures CommonLen(Bits(a), Bits(b)) == 8 * i + FirstDiff(x, y)
  {
    hide Bit, FirstDiff, CommonLen;
    FirstDifference(x, y);
    var z := FirstDiff(x, y);
    assert z < r;
    var n := 8 * i + z;
    AgreeBelow(a, b, i, n);
    assert n / 8 == i && n % 8 == z;
    CommonLenUnique(Bits(a), Bits(b), n);
  }

  /** `common_prefix_len`: whole bytes first, then the last partial byte. */
  method CommonPrefixLen(a: Label, b: Label) returns (n: nat)
    requires Valid(a) && Valid(b)
    ensures n == CommonLen(Bits(a), Bits(b))
  {
    hide Bit, Bits, CommonLen, FirstDiff, Masked;
    var max := if a.bitLen <= b.bitLen then a.bitLen else b.bitLen;
    if max == 0 {
      CommonLenUnique(Bits(a), Bits(b), 0);
      return 0;
    }
    var full := max / 8;
    for i := 0 to full
      invariant a.bytes[..i] == b.bytes[..i]
    {
      if a.bytes[i] != b.bytes[i] {
        CommonAtByte(a, b, i, 8, a.bytes[i], b.bytes[i]);
        return 8 * i + FirstDiff(a.bytes[i], b.bytes[i]);
      }
    }
    var rest := max % 8;
    if rest > 0 && full < |a.bytes| && full < |b.bytes| {
      var x, y := Masked(a.bytes[full], rest), Masked(b.bytes[full], rest);
      MaskedByte(a.bytes[full], rest);
      MaskedByte(b.bytes[full], rest);
      if x != y {
        CommonAtByte(a, b, full, rest, x, y);
        return 8 * full + FirstDiff(x, y);
      }
    }
    AgreeBelow(a, b, full, max);
    CommonLenUnique(Bits(a), Bits(b), max);
    return max;
  }

  /** Labels that agree on whole bytes and on the first bits of the next byte agree
      on the bits below n. */
  lemma AgreeBelow(a: Label, b: Label, full: nat, n: nat)
    requires Valid(a) && Valid(b) && n <= a.bitLen && n <= b.bitLen && n <= 8 * full + 8
    requires full <= |a.bytes| && full <= |b.bytes| && a.bytes[..full] == b.bytes[..full]
    requires forall k: nat | k < 8 && 8 * full + k < n :: Bit(a.bytes[full], k) == Bit(b.bytes[full], k)
    ensures forall i | 0 <= i < n :: Bits(a)[i] == Bits(b)[i]
  {
  }

  /** `is_prefix_of`. */
  predicate IsPrefixOf(a: Label, b: Label)
    requires Valid(a) && Valid(b)
  {
    if a.bitLen > b.bitLen then false
    else if a.bitLen == 0 then true
    else
      var full, rest := a.bitLen / 8, a.bitLen % 8;
      && a.bytes[..full] == b.bytes[..full]
      && (rest > 0 ==> Masked(a.bytes[full], rest) == Masked(b.bytes[full], rest))
  }

  lemma IsPrefixOfBits(a: Label, b: Label)
    requires Valid(a) && Valid(b)
    ensures IsPrefixOf(a, b) <==> Bits(a) <= Bits(b)
  {
    hide Bit, Masked;
    if 0 < a.bitLen <= b.bitLen {
      var full, rest := a.bitLen / 8, a.bitLen % 8;
      if IsPrefixOf(a, b) {
        if rest > 0 { MaskedByte(a.bytes[full], rest); MaskedByte(b.bytes[full], rest); }
        AgreeBelow(a, b, full, a.bitLen);
      }
      if Bits(a) <= Bits(b) {
        forall i | 0 <= i < full ensures a.bytes[i] == b.bytes[i] { SameByte(a, b, i); }
        if rest > 0 { SameMasked(a, b, full, rest); }
      }
    }
  }

  lemma SameByte(a: Label, b: Label, i: nat)
    requires Valid(a) && Valid(b) && Bits(a) <= Bits(b) && 8 * i + 8 <= a.bitLen
    ensures a.bytes[i] == b.bytes[i]
  {
    hide Bit;
    forall k: nat | k < 8 ensures Bit(a.bytes[i], k) == Bit(b.bytes[i], k) { SameBit(a, b, i, k); }
    ByteDetermined(a.bytes[i], b.bytes[i]);
  }

  lemma SameMasked(a: Label, b: Label, i: nat, r: nat)
    requires Valid(a) && Valid(b) && Bits(a) <= Bits(b) && 0 < r < 8 && 8 * i + r <= a.bitLen
    ensures Masked(a.bytes[i], r) == Masked(b.bytes[i], r)
  {
    hide Bit, Masked;
    var x, y := Masked(a.bytes[i], r), Masked(b.bytes[i], r);
    MaskedByte(a.bytes[i], r);
    MaskedByte(b.bytes[i], r);
    forall k: nat | k < 8 ensures Bit(x, k) == Bit(y, k) {
      if k < r { SameBit(a, b, i, k); }
    }
    ByteDetermined(x, y);
  }

  lemma SameBit(a: Label, b: Label, i: nat, k: nat)
    requires Valid(a) && Valid(b) && Bits(a) <= Bits(b) && k < 8 && 8 * i + k < a.bitLen
    ensures Bit(a.bytes[i], k) == Bit(b.bytes[i], k)
  {
    hide Bit;
    var j := 8 * i + k;
    assert j / 8 == i && j % 8 == k;
    assert Bits(a)[j] == Bits(b)[j];
  }
}
