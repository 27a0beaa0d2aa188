/** Storage paths (src/api/paths.rs).

    Tiles and entry bundles are stored under strings.  Printing and parsing back
    gives the same numbers, so distinct tiles and bundles never share a path;
    this is what lets the other modules treat storage as a map.  A request for a
    tile is parsed and printed again to find its object (src/api/handlers.rs:135-178);
    the text of the request is the path of the object unless it carries superfluous
    zeros. */
module Paths {
  import opened Bits
  import opened Wrappers

  datatype PathError = BadPartial | BadPattern | BadDigits | Overflow | BadLevel

  // ---- decimal numbers ----

  function Digit(d: nat): (ch: char)
    requires d < 10
    ensures '0' <= ch <= '9'
  {
    '0' + d as char
  }

  predicate IsDigit(ch: char) { '0' <= ch <= '9' }

  predicate AllDigits(s: string) { forall i | 0 <= i < |s| :: IsDigit(s[i]) }

  /** `{}` of an integer. */
  function Decimal(n: nat): (s: string)
    ensures |s| > 0 && AllDigits(s)
  {
    if n < 10 then [Digit(n)] else Decimal(n / 10) + [Digit(n % 10)]
  }

  /** `{:03}` of an integer below 1000. */
  function Digits3(n: nat): (s: string)
    requires n < 1000
    ensures |s| == 3 && AllDigits(s)
  {
    [Digit(n / 100), Digit(n / 10 % 10), Digit(n % 10)]
  }

  function ParseDecimal(s: string): nat
    requires AllDigits(s)
  {
    if s == [] then 0 else 10 * ParseDecimal(s[..|s| - 1]) + (s[|s| - 1] - '0') as nat
  }

  lemma {:induction false} DecimalInverse(n: nat)
    ensures ParseDecimal(Decimal(n)) == n
  {
    if n >= 10 {
      DecimalInverse(n / 10);
      assert Decimal(n)[..|Decimal(n)| - 1] == Decimal(n / 10);
    } else {
      assert Decimal(n)[..0] == [];
    }
  }

  lemma Digits3Inverse(n: nat)
    requires n < 1000
    ensures ParseDecimal(Digits3(n)) == n
  {
    hide ParseDecimal;
    ParseThree(Digits3(n));
    assert n == 10 * (n / 10) + n % 10 && n / 10 == 10 * (n / 100) + n / 10 % 10;
  }

  // ---- printing ----

  /** The groups above the last one. */
  function Prefix(m: nat): string {
    if m == 0 then "" else Prefix(m / 1000) + ("x" + Digits3(m % 1000)) + "/"
  }

  function Printed(n: nat): string { Prefix(n / 1000) + Digits3(n % 1000) }

  function Suffix(partial: nat): string { if partial > 0 then ".p/" + Decimal(partial) else "" }

  function PrintedWithSuffix(n: nat, partial: nat): string { Printed(n) + Suffix(partial) }

  function TilePathString(level: nat, index: nat, partial: nat): string {
    "tile/" + Decimal(level) + "/" + PrintedWithSuffix(index, partial)
  }

  function EntriesPathString(index: nat, partial: nat): string {
    "tile/entries/" + PrintedWithSuffix(index, partial)
  }

  /** `format_n`. */
  method FormatN(n: nat) returns (result: string)
    ensures result == Printed(n)
  {
    hide Prefix, Digits3;
    result := Digits3(n % 1000);
    var m: nat := n / 1000;
    while m > 0
      invariant Prefix(m) + result == Printed(n)
    {
      hide Printed;
      PrefixUnfold(m);
      ghost var before, group := result, "x" + Digits3(m % 1000);
      result := "x" + Digits3(m % 1000) + "/" + result;
      assert Prefix(m / 1000) + result == (Prefix(m / 1000) + group + "/") + before;
      m := m / 1000;
    }
    PrefixUnfold(0);
  }

  lemma PrefixUnfold(m: nat)
    ensures Prefix(m) == if m == 0 then "" else Prefix(m / 1000) + ("x" + Digits3(m % 1000)) + "/"
  {
  }

  // ---- parsing ----

  /** Position of the first ".p/". */
  function FindPartial(s: string, from: nat): (pos: Option<nat>)
    requires from <= |s|
    ensures pos.Some? ==> from <= pos.value && pos.value + 3 <= |s|
    decreases |s| - from
  {
    if |s| < from + 3 then None
    else if s[from..from + 3] == ".p/" then Some(from)
    else FindPartial(s, from + 1)
  }

  /** The parts between slashes. */
  function SplitSlash(s: string): (parts: seq<string>)
    ensures |parts| > 0
  {
    if s == "" then [""]
    else
      var parts, ch := SplitSlash(s[..|s| - 1]), s[|s| - 1];
      if ch == '/' then parts + [""]
      else ExtendLast(parts, [ch])
  }

  function ExtendLast(parts: seq<string>, t: string): (parts': seq<string>)
    requires |parts| > 0
    ensures |parts'| == |parts|
  {
    parts[..|parts| - 1] + [parts[|parts| - 1] + t]
  }

  predicate StartsWithX(s: string) { |s| > 0 && s[0] == 'x' }

  function StripX(s: string): string { if StartsWithX(s) then s[1..] else s }

  /** All parts but the last start with 'x'. */
  predicate PatternOk(parts: seq<string>) {
    forall i | 0 <= i < |parts| :: StartsWithX(parts[i]) <==> i < |parts| - 1
  }

  function AddPart(index: nat, part: string): Result<nat, PathError> {
    var digits := StripX(part);
    if |digits| != 3 || !AllDigits(digits) then Err(BadDigits)
    else
      var n := ParseDecimal(digits);
      if U64_LIMIT - 1 < n || index > (U64_LIMIT - 1 - n) / 1000 then Err(Overflow)
      else Ok(index * 1000 + n)
  }

  function AddParts(parts: seq<string>): Result<nat, PathError> {
    if parts == [] then Ok(0)
    else
      var r := AddParts(parts[..|parts| - 1]);
      if r.Err? then r else AddPart(r.value, parts[|parts| - 1])
  }

  function ParseIndex(s: string): Result<nat, PathError> {
    var parts := SplitSlash(s);
    if !PatternOk(parts) then Err(BadPattern) else AddParts(parts)
  }

  /** `parse_tile_index`, as a function. */
  function Parsed(s: string): Result<(nat, nat), PathError> {
    var pos := FindPartial(s, 0);
    var tail := if pos.Some? then s[pos.value + 3..] else "";
    if pos.Some? && (tail == "" || !AllDigits(tail) || !(1 <= ParseDecimal(tail) < 256)) then Err(BadPartial)
    else
      var r := ParseIndex(if pos.Some? then s[..pos.value] else s);
      if r.Err? then Err(r.error) else Ok((r.value, if pos.Some? then ParseDecimal(tail) else 0))
  }

  lemma {:induction false} AddPartsFails(parts: seq<string>, i: nat)
    requires i <= |parts| && AddParts(parts[..i]).Err?
    ensures AddParts(parts) == AddParts(parts[..i])
    decreases |parts|
  {
    if i < |parts| {
      assert parts[..|parts| - 1][..i] == parts[..i];
      AddPartsFails(parts[..|parts| - 1], i);
    } else {
      assert parts[..i] == parts;
    }
  }

  /** `parse_tile_index`. */
  method ParseTileIndex(s: string) returns (r: Result<(nat, nat), PathError>)
    ensures r == Parsed(s)
  {
    hide FindPartial, ParseDecimal, ParseIndex;
    var indexPart, partial := s, 0;
    var pos := FindPartial(s, 0);
    if pos.Some? {
      var tail := s[pos.value + 3..];
      if tail == "" || !AllDigits(tail) { return Err(BadPartial); }
      partial := ParseDecimal(tail);
      if !(1 <= partial < 256) { return Err(BadPartial); }
      indexPart := s[..pos.value];
    }
    var index := ParseGroups(indexPart);
    if index.Err? { return Err(index.error); }
    return Ok((index.value, partial));
  }

  method ParseGroups(s: string) returns (r: Result<nat, PathError>)
    ensures r == ParseIndex(s)
  {
    hide SplitSlash, AddPart;
    var parts := SplitSlash(s);
    for i := 0 to |parts|
      invariant forall j | 0 <= j < i :: StartsWithX(parts[j]) <==> j < |parts| - 1
    {
      if StartsWithX(parts[i]) != (i < |parts| - 1) { return Err(BadPattern); }
    }
    var index: nat := 0;
    for i := 0 to |parts|
      invariant AddParts(parts[..i]) == Ok(index)
    {
      var next := AddPart(index, parts[i]);
      assert parts[..i + 1][..i] == parts[..i];
      if next.Err? {
        AddPartsFails(parts, i + 1);
        return Err(next.error);
      }
      index := next.value;
    }
    assert parts[..|parts|] == parts;
    return Ok(index);
  }

  // ---- printing, then parsing ----

  /** The parts of the groups above the last one. */
  function Groups(m: nat): seq<string> {
    if m == 0 then [] else Groups(m / 1000) + ["x" + Digits3(m % 1000)]
  }

  lemma {:induction false} SplitAppend(a: string, b: string)
    requires '/' !in b
    ensures SplitSlash(a + b) == ExtendLast(SplitSlash(a), b)
    decreases |b|
  {
    hide ExtendLast;
    if b == "" {
      assert a + b == a;
      ExtendByNothing(SplitSlash(a));
    } else {
      var init, ch := b[..|b| - 1], b[|b| - 1];
      SplitAppend(a, init);
      assert (a + b)[..|a + b| - 1] == a + init && (a + b)[|a + b| - 1] == ch;
      assert init + [ch] == b;
      ExtendTwice(SplitSlash(a), init, ch);
    }
  }

  lemma ExtendByNothing(parts: seq<string>)
    requires |parts| > 0
    ensures ExtendLast(parts, "") == parts
  {
    assert parts[|parts| - 1] + "" == parts[|parts| - 1];
  }

  lemma ExtendTwice(parts: seq<string>, t: string, ch: char)
    requires |parts| > 0
    ensures ExtendLast(ExtendLast(parts, t), [ch]) == ExtendLast(parts, t + [ch])
  {
    var last := parts[|parts| - 1];
    assert (last + t) + [ch] == last + (t + [ch]);
  }

  lemma {:induction false} SplitPrefix(m: nat)
    ensures SplitSlash(Prefix(m)) == Groups(m) + [""]
  {
    if m > 0 {
      var group, a := "x" + Digits3(m % 1000), Prefix(m / 1000);
      assert Prefix(m) == (a + group) + "/";
      assert Groups(m) == Groups(m / 1000) + [group];
      hide Prefix, Groups, SplitSlash, Digits3;
      SplitPrefix(m / 1000);
      SplitGroup(a, group, Groups(m / 1000));
    }
  }

  lemma SplitGroup(a: string, group: string, parts: seq<string>)
    requires SplitSlash(a) == parts + [""] && '/' !in group
    ensures SplitSlash((a + group) + "/") == (parts + [group]) + [""]
  {
    SplitAppend(a, group);
    assert ExtendLast(parts + [""], group) == parts + [group] by { assert "" + group == group; }
    assert ((a + group) + "/")[..|(a + group) + "/"| - 1] == a + group;
  }

  lemma SplitPrinted(n: nat)
    ensures SplitSlash(Printed(n)) == Groups(n / 1000) + [Digits3(n % 1000)]
  {
    SplitPrefix(n / 1000);
    SplitAppend(Prefix(n / 1000), Digits3(n % 1000));
    assert "" + Digits3(n % 1000) == Digits3(n % 1000);
  }

  lemma {:induction false} GroupsStartWithX(m: nat)
    ensures forall i | 0 <= i < |Groups(m)| :: StartsWithX(Groups(m)[i])
  {
    if m > 0 { GroupsStartWithX(m / 1000); }
  }

  lemma AddPartExact(m: nat, part: string)
    requires m < U64_LIMIT && (part == "x" + Digits3(m % 1000) || part == Digits3(m % 1000))
    ensures AddPart(m / 1000, part) == Ok(m)
  {
    Digits3Inverse(m % 1000);
    assert StripX(part) == Digits3(m % 1000);
  }

  lemma {:induction false} AddGroups(m: nat)
    requires m < U64_LIMIT
    ensures AddParts(Groups(m)) == Ok(m)
  {
    if m > 0 {
      AddGroups(m / 1000);
      assert Groups(m)[..|Groups(m)| - 1] == Groups(m / 1000);
      AddPartExact(m, "x" + Digits3(m % 1000));
    }
  }

  /** Every 64-bit index is read back. */
  lemma ParsePrinted(n: nat)
    requires n < U64_LIMIT
    ensures ParseIndex(Printed(n)) == Ok(n)
  {
    hide SplitSlash, Groups, Digits3, AddPart, Printed;
    SplitPrinted(n);
    GroupsStartWithX(n / 1000);
    AddGroups(n / 1000);
    AddPartExact(n, Digits3(n % 1000));
    var parts := Groups(n / 1000) + [Digits3(n % 1000)];
    assert parts[..|parts| - 1] == Groups(n / 1000);
  }

  lemma {:induction false} PrintedHasNoDot(m: nat)
    ensures '.' !in Prefix(m)
  {
    if m > 0 { PrintedHasNoDot(m / 1000); }
  }

  lemma {:induction false} FindAfter(a: string, b: string, from: nat)
    requires '.' !in a && from <= |a|
    requires b == "" || (|b| >= 3 && b[..3] == ".p/")
    ensures FindPartial(a + b, from) == if b == "" then None else Some(|a|)
    decreases |a| - from
  {
    var s := a + b;
    if from + 3 <= |s| {
      assert s[from..from + 3][0] == s[from];
      if from < |a| { assert s[from] == a[from]; FindAfter(a, b, from + 1); } else { assert s[from..from + 3] == b[..3]; }
    }
  }

  /** `parse_tile_index` inverts `format_n_with_suffix` for every u64 and u8. */
  lemma ParseInvertsPrint(n: nat, partial: nat)
    requires n < U64_LIMIT && partial < 256
    ensures Parsed(PrintedWithSuffix(n, partial)) == Ok((n, partial))
  {
    var base, suffix := Printed(n), Suffix(partial);
    PrintedHasNoDot(n / 1000);
    FindAfter(base, suffix, 0);
    ParsePrinted(n);
    if partial > 0 {
      assert (base + suffix)[..|base|] == base && (base + suffix)[|base| + 3..] == Decimal(partial);
      DecimalInverse(partial);
    } else {
      assert base + suffix == base;
    }
  }

  // ---- parsing, then printing ----

  /** A decimal number without superfluous zeros. */
  predicate PlainDecimal(s: string) { |s| == 1 || (|s| > 1 && s[0] != '0') }

  lemma {:induction false} DecimalPlain(n: nat)
    ensures PlainDecimal(Decimal(n)) && (n > 0 ==> Decimal(n)[0] != '0')
  {
    if n >= 10 { DecimalPlain(n / 10); }
  }

  lemma {:induction false} DecimalOfParsed(s: string)
    requires s != "" && AllDigits(s)
    ensures Decimal(ParseDecimal(s)) == s <==> PlainDecimal(s)
  {
    DecimalPlain(ParseDecimal(s));
    var init, last := s[..|s| - 1], s[|s| - 1];
    var m, d := ParseDecimal(init), (last - '0') as nat;
    assert ParseDecimal(s) == 10 * m + d && s == init + [last] && Digit(d) == last;
    if |s| == 1 {
      assert init == "" && m == 0;
    } else if s[0] != '0' {
      hide ParseDecimal, Decimal;
      DecimalOfParsed(init);
      DecimalPlain(m);
      DecimalSnoc(m, d);
    } else {
      assert Decimal(0) == "0";
      hide ParseDecimal, Decimal;
    }
  }

  lemma DecimalSnoc(m: nat, d: nat)
    requires d < 10
    ensures m > 0 ==> Decimal(10 * m + d) == Decimal(m) + [Digit(d)]
    ensures Decimal(0)[0] == '0'
  {
  }

  lemma Digits3OfParsed(s: string)
    requires |s| == 3 && AllDigits(s)
    ensures ParseDecimal(s) < 1000 && Digits3(ParseDecimal(s)) == s
  {
    var a, b, c := (s[0] - '0') as nat, (s[1] - '0') as nat, (s[2] - '0') as nat;
    assert ParseDecimal(s) == 100 * a + 10 * b + c by { ParseThree(s); }
    hide ParseDecimal;
    ThreeDigits(a, b, c);
    assert Digit(a) == s[0] && Digit(b) == s[1] && Digit(c) == s[2];
  }

  lemma ThreeDigits(a: nat, b: nat, c: nat)
    requires a < 10 && b < 10 && c < 10
    ensures var n := 100 * a + 10 * b + c; n / 100 == a && n / 10 % 10 == b && n % 10 == c
  {
    assert (100 * a + 10 * b + c) / 10 == 10 * a + b;
  }

  lemma ParseThree(s: string)
    requires |s| == 3 && AllDigits(s)
    ensures ParseDecimal(s) == 100 * (s[0] - '0') as nat + 10 * (s[1] - '0') as nat + (s[2] - '0') as nat
  {
    assert s[..2][..1] == s[..1] && s[..1][..0] == [];
    assert ParseDecimal(s[..1]) == (s[0] - '0') as nat;
    assert s[..2][..|s[..2]| - 1] == s[..1];
  }

  /** Splitting at slashes is inverted by joining. */
  function JoinSlash(parts: seq<string>): string
    requires |parts| > 0
  {
    if |parts| == 1 then parts[0] else JoinSlash(parts[..|parts| - 1]) + "/" + parts[|parts| - 1]
  }

  lemma {:induction false} JoinOfSplit(s: string)
    ensures JoinSlash(SplitSlash(s)) == s
    ensures forall part | part in SplitSlash(s) :: '/' !in part
  {
    if s != "" {
      var init, ch := s[..|s| - 1], s[|s| - 1];
      JoinOfSplit(init);
      var parts := SplitSlash(init);
      assert s == init + [ch];
      if ch == '/' { assert (parts + [""])[..|parts|] == parts; } else { JoinExtended(parts, ch); }
    }
  }

  lemma JoinExtended(parts: seq<string>, ch: char)
    requires |parts| > 0
    ensures JoinSlash(ExtendLast(parts, [ch])) == JoinSlash(parts) + [ch]
  {
    var n := |parts| - 1;
    assert ExtendLast(parts, [ch])[..n] == parts[..n];
    if n > 0 {
      var a, b := JoinSlash(parts[..n]), parts[n];
      assert a + "/" + (b + [ch]) == (a + "/" + b) + [ch];
    }
  }

  lemma {:induction false} JoinHead(parts: seq<string>)
    requires |parts| > 0
    ensures parts[0] <= JoinSlash(parts)
  {
    if |parts| > 1 { JoinHead(parts[..|parts| - 1]); }
  }

  /** Every part has three digits, after an 'x' in all but the last. */
  ghost predicate GroupsOk(groups: seq<string>) {
    forall i | 0 <= i < |groups| :: |groups[i]| == 4 && StartsWithX(groups[i]) && AllDigits(groups[i][1..])
  }

  lemma {:induction false} AddPartsShape(parts: seq<string>, i: nat)
    requires AddParts(parts).Ok? && i < |parts|
    ensures |StripX(parts[i])| == 3 && AllDigits(StripX(parts[i]))
    decreases |parts|
  {
    if i < |parts| - 1 { AddPartsShape(parts[..|parts| - 1], i); }
  }

  lemma AddPartsSnoc(parts: seq<string>)
    requires AddParts(parts).Ok? && parts != []
    ensures var init, digits := parts[..|parts| - 1], StripX(parts[|parts| - 1]);
            && AddParts(init).Ok? && (init == [] ==> AddParts(init).value == 0)
            && |digits| == 3 && AllDigits(digits)
            && AddParts(parts).value == AddParts(init).value * 1000 + ParseDecimal(digits)
  {
    hide ParseDecimal;
  }

  /** The number that the parts spell, without a bound. */
  ghost function Spelt(parts: seq<string>): nat
    requires forall i | 0 <= i < |parts| :: AllDigits(StripX(parts[i]))
  {
    if parts == [] then 0
    else Spelt(parts[..|parts| - 1]) * 1000 + ParseDecimal(StripX(parts[|parts| - 1]))
  }

  /** Parts of three digits are refused exactly when they spell a number of more than 64
      bits, and otherwise read as that number. */
  lemma {:induction false} OverflowExact(parts: seq<string>)
    requires forall i | 0 <= i < |parts| :: |StripX(parts[i])| == 3 && AllDigits(StripX(parts[i]))
    ensures AddParts(parts) == if Spelt(parts) < U64_LIMIT then Ok(Spelt(parts)) else Err(Overflow)
  {
    hide ParseDecimal;
    if parts != [] {
      var init, last := parts[..|parts| - 1], parts[|parts| - 1];
      OverflowExact(init);
      Digits3OfParsed(StripX(last));
    }
  }

  /** Groups are printed back unless the first of them is zero. */
  lemma {:induction false} GroupsOfAdded(groups: seq<string>)
    requires GroupsOk(groups) && AddParts(groups).Ok?
    ensures Groups(AddParts(groups).value) == groups <==> groups == [] || groups[0] != "x000"
  {
    hide *;
    NoGroups();
    if groups != [] {
      var init, last := groups[..|groups| - 1], groups[|groups| - 1];
      AddPartsSnoc(groups);
      GroupsOkInit(groups);
      GroupShape(last);
      GroupsOfAdded(init);
      GroupsSnoc(init, last, AddParts(init).value, ParseDecimal(StripX(last)));
    }
  }

  lemma NoGroups()
    ensures AddParts([]) == Ok(0) && Groups(0) == []
  {
  }

  lemma GroupsOkInit(groups: seq<string>)
    requires GroupsOk(groups) && groups != []
    ensures var init, last := groups[..|groups| - 1], groups[|groups| - 1];
            && GroupsOk(init) && groups == init + [last]
            && |last| == 4 && StartsWithX(last) && AllDigits(last[1..])
  {
  }

  lemma GroupShape(group: string)
    requires |group| == 4 && StartsWithX(group) && AllDigits(group[1..])
    ensures AllDigits(StripX(group)) && ParseDecimal(StripX(group)) < 1000
    ensures group == "x" + Digits3(ParseDecimal(StripX(group)))
  {
    hide Digits3, ParseDecimal;
    Digits3OfParsed(group[1..]);
  }

  lemma GroupsSnoc(init: seq<string>, last: string, m: nat, d: nat)
    requires d < 1000 && last == "x" + Digits3(d)
    requires Groups(m) == init <==> init == [] || init[0] != "x000"
    requires init == [] ==> m == 0
    ensures Groups(m * 1000 + d) == init + [last] <==> (init + [last])[0] != "x000"
  {
    var n := m * 1000 + d;
    assert n / 1000 == m && n % 1000 == d;
    assert Groups(0) == [];
    assert Digits3(0) == "000";
    assert last == "x000" <==> d == 0 by {
      assert last[1..] == Digits3(d) && "x000"[1..] == Digits3(0);
      Digits3Inverse(d);
      Digits3Inverse(0);
    }
    if n > 0 {
      assert Groups(n) == Groups(m) + [last];
      assert Groups(n)[..|Groups(n)| - 1] == Groups(m) && (init + [last])[..|init|] == init;
    }
  }

  /** A parsed index is printed back unless it starts with a group of zeros. */
  lemma PrintParsed(s: string)
    requires ParseIndex(s).Ok?
    ensures Printed(ParseIndex(s).value) == s <==> !("x000" <= s)
  {
    hide SplitSlash, JoinSlash, Digits3, Groups, Prefix, ParseDecimal;
    var parts, n := SplitSlash(s), ParseIndex(s).value;
    var groups, last := parts[..|parts| - 1], parts[|parts| - 1];
    forall i | 0 <= i < |parts| ensures |StripX(parts[i])| == 3 && AllDigits(StripX(parts[i])) { AddPartsShape(parts, i); }
    assert GroupsOk(groups);
    GroupsOfAdded(groups);
    Digits3OfParsed(last);
    var m := AddParts(groups).value;
    assert n == m * 1000 + ParseDecimal(last) && n / 1000 == m && n % 1000 == ParseDecimal(last);
    SplitPrinted(n);
    JoinOfSplit(s);
    JoinOfSplit(Printed(n));
    assert parts == groups + [last] && (Groups(m) + [last])[..|Groups(m)|] == Groups(m);
    assert Printed(n) == s <==> Groups(m) == groups;
    FirstGroup(s, parts);
  }

  lemma FirstGroup(s: string, parts: seq<string>)
    requires |parts| > 0 && JoinSlash(parts) == s && PatternOk(parts)
    requires |StripX(parts[0])| == 3
    ensures "x000" <= s <==> |parts| > 1 && parts[0] == "x000"
  {
    JoinHead(parts);
    assert s[..|parts[0]|] == parts[0];
    if |parts| == 1 { assert s == parts[0]; } else { assert |parts[0]| == 4; }
  }

  /** An index with its suffix carries no superfluous zeros. */
  predicate PlainIndex(s: string) {
    var pos := FindPartial(s, 0);
    !("x000" <= s) && (pos.Some? ==> PlainDecimal(s[pos.value + 3..]))
  }

  predicate SuffixAt(s: string, i: nat) { i + 3 <= |s| && s[i..i + 3] == ".p/" }

  /** The first position that holds the suffix is found. */
  lemma {:induction false} FindPartialFinds(s: string, from: nat)
    requires from <= |s|
    ensures var pos := FindPartial(s, from);
            && (pos.Some? ==> SuffixAt(s, pos.value))
            && forall i: nat | from <= i && (pos.Some? ==> i < pos.value) :: !SuffixAt(s, i)
    decreases |s| - from
  {
    if from + 3 <= |s| && s[from..from + 3] != ".p/" { FindPartialFinds(s, from + 1); }
  }

  /** `format_n_with_suffix` inverts `parse_tile_index` on the texts without superfluous
      zeros and on no others. */
  lemma PrintInvertsParse(s: string)
    requires Parsed(s).Ok?
    ensures var (n, partial) := Parsed(s).value; PrintedWithSuffix(n, partial) == s <==> PlainIndex(s)
  {
    hide FindPartial, ParseIndex, Printed, Decimal, ParseDecimal, PlainDecimal;
    var pos := FindPartial(s, 0);
    var (n, partial) := Parsed(s).value;
    if pos.None? {
      PrintParsed(s);
      assert Printed(n) + "" == Printed(n);
    } else {
      PrintTail(s, pos.value);
    }
  }

  lemma PrintTail(s: string, pos: nat)
    requires FindPartial(s, 0) == Some(pos) && pos + 3 <= |s|
    requires var tail := s[pos + 3..]; tail != "" && AllDigits(tail) && ParseDecimal(tail) > 0
    requires ParseIndex(s[..pos]).Ok?
    ensures PrintedWithSuffix(ParseIndex(s[..pos]).value, ParseDecimal(s[pos + 3..])) == s
            <==> !("x000" <= s) && PlainDecimal(s[pos + 3..])
  {
    hide *;
    FindPartialFinds(s, 0);
    assert s[pos..pos + 3][0] == s[pos];
    ZerosInBase(s, pos);
    PrintParsed(s[..pos]);
    DecimalOfParsed(s[pos + 3..]);
    PrintWithTail(s, pos, ParseIndex(s[..pos]).value, ParseDecimal(s[pos + 3..]));
  }

  lemma PrintWithTail(s: string, pos: nat, n: nat, partial: nat)
    requires FindPartial(s, 0) == Some(pos) && s[pos..pos + 3] == ".p/" && partial > 0
    ensures PrintedWithSuffix(n, partial) == s <==> Printed(n) == s[..pos] && Decimal(partial) == s[pos + 3..]
  {
    hide FindPartial, Printed, Decimal;
    SuffixFound(n, partial);
    assert s == s[..pos] + (s[pos..pos + 3] + s[pos + 3..]);
  }

  lemma SuffixFound(n: nat, partial: nat)
    requires partial > 0
    ensures var s, base := PrintedWithSuffix(n, partial), Printed(n);
            FindPartial(s, 0) == Some(|base|) && s[..|base|] == base && s[|base| + 3..] == Decimal(partial)
  {
    PrintedHasNoDot(n / 1000);
    hide Decimal, FindPartial;
    FindAfter(Printed(n), Suffix(partial), 0);
  }

  lemma ZerosInBase(s: string, pos: nat)
    requires pos < |s| && s[pos] == '.'
    ensures "x000" <= s[..pos] <==> "x000" <= s
  {
    if "x000" <= s {
      assert s[0] == 'x' && s[1] == '0' && s[2] == '0' && s[3] == '0';
      assert s[..pos][..4] == "x000";
    }
  }

  // ---- serving ----

  /** `parse_tile_level`. */
  function ParsedLevel(level: string): Result<nat, PathError> {
    if level == "" || !AllDigits(level) || ParseDecimal(level) > 63 then Err(BadLevel) else Ok(ParseDecimal(level))
  }

  /** The object that `get_tile` reads for a request "tile/{level}/{index}". */
  function ServedTile(level: string, index: string): Result<string, PathError> {
    var l, r := ParsedLevel(level), Parsed(index);
    if l.Err? then Err(l.error) else if r.Err? then Err(r.error) else Ok(TilePathString(l.value, r.value.0, r.value.1))
  }

  /** The object that `get_entries` reads for a request "tile/entries/{index}". */
  function ServedEntries(index: string): Result<string, PathError> {
    var r := Parsed(index);
    if r.Err? then Err(r.error) else Ok(EntriesPathString(r.value.0, r.value.1))
  }

  /** Every tile on a level below 64 is served under its own path, which level, index and
      width are read back from; there are no others. */
  lemma TileServed(level: nat, n: nat, partial: nat)
    requires n < U64_LIMIT && partial < 256
    ensures ServedTile(Decimal(level), PrintedWithSuffix(n, partial))
            == if level < 64 then Ok(TilePathString(level, n, partial)) else Err(BadLevel)
    ensures ParsedLevel(Decimal(level)) == if level < 64 then Ok(level) else Err(BadLevel)
  {
    hide Decimal, ParseDecimal, PrintedWithSuffix, Parsed;
    DecimalInverse(level);
    ParseInvertsPrint(n, partial);
  }

  /** So is every entry bundle. */
  lemma EntriesServed(n: nat, partial: nat)
    requires n < U64_LIMIT && partial < 256
    ensures ServedEntries(PrintedWithSuffix(n, partial)) == Ok(EntriesPathString(n, partial))
  {
    hide Parsed, PrintedWithSuffix;
    ParseInvertsPrint(n, partial);
  }

  /** A request that is answered names the object it reads if and only if neither level
      nor index carries superfluous zeros; otherwise it is a second address of it. */
  lemma TileAliasExact(level: string, index: string)
    requires ServedTile(level, index).Ok?
    ensures ServedTile(level, index).value == "tile/" + level + "/" + index <==> PlainDecimal(level) && PlainIndex(index)
  {
    hide Decimal, ParseDecimal, PrintedWithSuffix, Parsed, PlainIndex, PlainDecimal;
    DecimalOfParsed(level);
    PrintInvertsParse(index);
    var l := ParsedLevel(level).value;
    var (n, partial) := Parsed(index).value;
    var text, s := PrintedWithSuffix(n, partial), TilePathString(l, n, partial);
    var request := "tile/" + level + "/" + index;
    assert s[5..] == Decimal(l) + "/" + text && request[5..] == level + "/" + index;
    if s == request { DigitsDetermined(Decimal(l), text, level, index); }
  }

  lemma EntriesAliasExact(index: string)
    requires ServedEntries(index).Ok?
    ensures ServedEntries(index).value == "tile/entries/" + index <==> PlainIndex(index)
  {
    hide PrintedWithSuffix, Parsed, PlainIndex;
    PrintInvertsParse(index);
    var (n, partial) := Parsed(index).value;
    assert EntriesPathString(n, partial)[13..] == PrintedWithSuffix(n, partial);
    assert ("tile/entries/" + index)[13..] == index;
  }

  lemma {:induction false} ParseWithZero(s: string)
    requires AllDigits(s)
    ensures AllDigits("0" + s) && ParseDecimal("0" + s) == ParseDecimal(s)
  {
    if s == "" {
      assert ("0" + s)[..0] == "";
    } else {
      ParseWithZero(s[..|s| - 1]);
      assert ("0" + s)[..|s|] == "0" + s[..|s| - 1];
    }
  }

  /** Zeros in front of the level give every tile further addresses. */
  lemma TileAliases(level: string, index: string)
    requires ServedTile(level, index).Ok?
    ensures ServedTile("0" + level, index) == ServedTile(level, index)
    ensures ServedTile("0" + level, index).value != "tile/" + ("0" + level) + "/" + index
  {
    hide Parsed, ParseDecimal, TilePathString, PlainIndex;
    ParseWithZero(level);
    TileAliasExact("0" + level, index);
  }

  // ---- paths are injective and disjoint ----

  lemma SuffixInjective(n: nat, partial: nat, n': nat, partial': nat)
    requires n < U64_LIMIT && partial < 256 && n' < U64_LIMIT && partial' < 256
    requires PrintedWithSuffix(n, partial) == PrintedWithSuffix(n', partial')
    ensures n == n' && partial == partial'
  {
    hide *;
    ParseInvertsPrint(n, partial);
    ParseInvertsPrint(n', partial');
  }

  /** Digits followed by a slash determine the digits. */
  lemma DigitsDetermined(a: string, b: string, a': string, b': string)
    requires AllDigits(a) && AllDigits(a') && a + "/" + b == a' + "/" + b'
    ensures a == a' && b == b'
  {
    var s := a + "/" + b;
    assert s[|a|] == '/' && s[|a'|] == '/';
    assert |a| < |a'| ==> s[|a|] == a'[|a|] && IsDigit(a'[|a|]);
    assert |a'| < |a| ==> s[|a'|] == a[|a'|] && IsDigit(a[|a'|]);
    assert s[..|a|] == a && s[..|a'|] == a' && s[|a| + 1..] == b && s[|a'| + 1..] == b';
  }

  /** Distinct tiles have distinct paths. */
  lemma TilePathsInjective(level: nat, n: nat, partial: nat, level': nat, n': nat, partial': nat)
    requires n < U64_LIMIT && partial < 256 && n' < U64_LIMIT && partial' < 256
    ensures TilePathString(level, n, partial) == TilePathString(level', n', partial')
            <==> (level, n, partial) == (level', n', partial')
  {
    hide Decimal, PrintedWithSuffix;
    var s, s' := TilePathString(level, n, partial), TilePathString(level', n', partial');
    if s == s' {
      var rest, rest' := PrintedWithSuffix(n, partial), PrintedWithSuffix(n', partial');
      assert s[5..] == Decimal(level) + "/" + rest && s'[5..] == Decimal(level') + "/" + rest';
      DigitsDetermined(Decimal(level), rest, Decimal(level'), rest');
      DecimalInverse(level);
      DecimalInverse(level');
      SuffixInjective(n, partial, n', partial');
    }
  }

  /** Distinct entry bundles have distinct paths. */
  lemma EntriesPathsInjective(n: nat, partial: nat, n': nat, partial': nat)
    requires n < U64_LIMIT && partial < 256 && n' < U64_LIMIT && partial' < 256
    ensures EntriesPathString(n, partial) == EntriesPathString(n', partial') <==> (n, partial) == (n', partial')
  {
    hide PrintedWithSuffix;
    var s, s' := EntriesPathString(n, partial), EntriesPathString(n', partial');
    if s == s' {
      assert s[13..] == PrintedWithSuffix(n, partial) && s'[13..] == PrintedWithSuffix(n', partial');
      SuffixInjective(n, partial, n', partial');
    }
  }

  /** No tile shares a path with an entry bundle. */
  lemma PathsDisjoint(level: nat, n: nat, partial: nat, n': nat, partial': nat)
    ensures TilePathString(level, n, partial) != EntriesPathString(n', partial')
  {
    hide PrintedWithSuffix;
    assert TilePathString(level, n, partial)[5] == Decimal(level)[0];
    assert EntriesPathString(n', partial')[5] == 'e';
  }
}
