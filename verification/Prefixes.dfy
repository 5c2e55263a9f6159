/** Printing and parsing of address ranges: a single address, a prefix, or two bounds.  The two address
    families differ in their width and in how the part after the slash is read. */
module Prefixes {
  import opened Powers
  import opened BitSlices
  import opened BitMasks
  import opened Numerals
  import opened Options

  datatype Family = V4 | V6

  function Width(f: Family): nat {
    if f == V4 then 32 else 128
  }

  function Max(f: Family): nat {
    Pow2(Width(f)) - 1
  }

  /** The system's conversions between addresses and their text. */
  datatype Codec = Codec(encode: nat -> string, decode: string -> Option<nat>)

  /** Does a character occur in a text? */
  predicate Has(s: string, c: char) {
    exists i :: 0 <= i < |s| && s[i] == c
  }

  predicate IsBlank(s: string) {
    forall i :: 0 <= i < |s| ==> s[i] == ' ' || s[i] == '\t'
  }

  /** What is taken for granted of the conversions: text to address inverts address to text, and the text
      of an address has none of the characters that the range formats add. */
  ghost predicate Faithful(f: Family, codec: Codec) {
    && (forall a: nat :: a <= Max(f) ==>
          && codec.decode(codec.encode(a)) == Some(a)
          && !Has(codec.encode(a), '/') && !Has(codec.encode(a), '-') && !IsBlank(codec.encode(a)))
    && (forall s :: codec.decode(s).Some? ==> codec.decode(s).value <= Max(f))
    && (forall s :: Has(s, '+') ==> codec.decode(s) == None)
  }

  predicate AllDigits(s: string) {
    forall i :: 0 <= i < |s| ==> IsDigit(s[i], 10)
  }

  function ReadDecimal(f: Family, s: string): Option<nat> {
    if AllDigits(s) && Numeral(Number(s, 10), 10) == s && Number(s, 10) <= Max(f) then Some(Number(s, 10)) else None
  }

  /** Conversions for which all that holds: the address as a decimal number. */
  function Decimal(f: Family): Codec {
    Codec((a: nat) => Numeral(a, 10), s => ReadDecimal(f, s))
  }

  lemma DecimalIsFaithful(f: Family)
    ensures Faithful(f, Decimal(f))
  {
    hide Numeral, ReadDecimal, Max, IsBlank, Has;
    forall a: nat | a <= Max(f)
      ensures ReadDecimal(f, Numeral(a, 10)) == Some(a)
      ensures !Has(Numeral(a, 10), '/') && !Has(Numeral(a, 10), '-') && !IsBlank(Numeral(a, 10))
    {
      DecimalReadBack(f, a);
      NumeralHas(a, '/');
      NumeralHas(a, '-');
    }
    forall s ensures ReadDecimal(f, s).Some? ==> ReadDecimal(f, s).value <= Max(f) && !Has(s, '+') {
      DecimalRange(f, s);
    }
  }

  lemma DecimalReadBack(f: Family, a: nat)
    requires a <= Max(f)
    ensures ReadDecimal(f, Numeral(a, 10)) == Some(a)
  {
    NumeralNumber(a, 10);
  }

  lemma DecimalRange(f: Family, s: string)
    ensures ReadDecimal(f, s).Some? ==> ReadDecimal(f, s).value <= Max(f) && !Has(s, '+')
  {
  }

  /** to_string. */
  function Printed(f: Family, codec: Codec, lower: nat, upper: nat): string
    requires lower <= upper <= Max(f)
  {
    var diff := upper - lower;
    var text := codec.encode(lower);
    if diff == 0 then text
    else if PowerOfTwoTest(diff, Max(f)) then text + "/" + Numeral(PrefixLength(f, diff), 10)
    else if diff < 1024 then text + "+" + Numeral(diff, 10)
    else text + "-" + codec.encode(upper)
  }

  function PrefixLength(f: Family, diff: nat): nat
    requires diff <= Max(f)
  {
    OnesBound(diff, Width(f));
    Width(f) - Ones(diff)
  }

  lemma {:induction false} OnesBound(value: nat, b: nat)
    requires value < Pow2(b)
    ensures Ones(value) <= b
  {
    if value > 0 { OnesBound(value / 2, b - 1); }
  }

  /** The first occurrence of a character, or the length. */
  function IndexOf(s: string, c: char): (i: nat)
    ensures i <= |s|
    ensures forall k :: 0 <= k < i ==> s[k] != c
    ensures i < |s| ==> s[i] == c
  {
    if s == [] || s[0] == c then 0 else 1 + IndexOf(s[1..], c)
  }

  /** split: the parts between delimiters, without the blank ones. */
  function Split(s: string, delim: char): seq<string>
    decreases |s|
  {
    if s == [] then []
    else if s[0] == delim then Split(s[1..], delim)
    else
      var n := IndexOf(s, delim);
      (if IsBlank(s[..n]) then [] else [s[..n]]) + Split(s[n..], delim)
  }

  lemma SplitOne(b: string, delim: char)
    requires !Has(b, delim) && !IsBlank(b)
    ensures Split(b, delim) == [b]
  {
    IndexIs(b, delim, |b|);
    assert b[..|b|] == b && b[|b|..] == [] && b[0] != delim;
  }

  lemma SplitFirst(a: string, delim: char, rest: string)
    requires !Has(a, delim) && !IsBlank(a)
    ensures Split(a + [delim] + rest, delim) == [a] + Split(rest, delim)
  {
    var s := a + [delim] + rest;
    IndexIs(s, delim, |a|);
    assert s[..|a|] == a && s[|a|..] == [delim] + rest && ([delim] + rest)[1..] == rest;
    assert a[0] != delim && s[0] == a[0];
    assert Split([delim] + rest, delim) == Split(rest, delim);
  }

  /** Parts with nothing but blanks are left out. */
  lemma SplitSkips(blank: string, delim: char, rest: string)
    requires !Has(blank, delim) && IsBlank(blank)
    ensures Split(blank + [delim] + rest, delim) == Split(rest, delim)
  {
    var s := blank + [delim] + rest;
    assert Split([delim] + rest, delim) == Split(rest, delim) by {
      assert ([delim] + rest)[1..] == rest;
    }
    if blank == "" {
      assert s == [delim] + rest;
    } else {
      IndexIs(s, delim, |blank|);
      assert s[..|blank|] == blank && s[|blank|..] == [delim] + rest && blank[0] != delim && s[0] == blank[0];
    }
  }

  lemma SplitTwo(a: string, delim: char, b: string)
    requires !Has(a, delim) && !Has(b, delim) && !IsBlank(a) && !IsBlank(b)
    ensures Split(a + [delim] + b, delim) == [a, b]
  {
    SplitFirst(a, delim, b);
    SplitOne(b, delim);
  }

  lemma {:induction false} IndexIs(s: string, c: char, i: nat)
    requires i <= |s| && (i < |s| ==> s[i] == c) && forall k :: 0 <= k < i ==> s[k] != c
    ensures IndexOf(s, c) == i
  {
    if i > 0 { IndexIs(s[1..], c, i - 1); }
  }

  /** str2num in base 10: spaces, a sign, and digits up to the end; a text with nothing is zero. */
  function StrToNum(s: string, min: int, max: int): Option<int> {
    var t := Trimmed(s);
    var negative := t != [] && t[0] == '-';
    var rest := if t != [] && (t[0] == '-' || t[0] == '+') then t[1..] else t;
    var digits := Leading(rest, 10);
    var value := if negative then -(Number(digits, 10) as int) else Number(digits, 10);
    if s == [] then (if min <= 0 <= max then Some(0) else None)
    else if digits == [] || |digits| < |rest| then None
    else if min <= value <= max then Some(value)
    else None
  }

  /** Spaces, a sign and digits are read as the number, if nothing follows and it is within the limits. */
  lemma StrToNumIs(blanks: string, sign: string, digits: string, tail: string, min: int, max: int)
    requires (forall i :: 0 <= i < |blanks| ==> IsSpace(blanks[i])) && (sign == "" || sign == "+" || sign == "-")
    requires digits != "" && AllDigits(digits) && (tail != "" ==> !IsDigit(tail[0], 10))
    ensures var value: int := if sign == "-" then -(Number(digits, 10) as int) else Number(digits, 10);
      StrToNum(blanks + sign + digits + tail, min, max) == if tail == "" && min <= value <= max then Some(value) else None
  {
    var rest, t := digits + tail, sign + digits + tail;
    hide Number, Leading, Trimmed;
    assert blanks + sign + digits + tail == blanks + t;
    assert t[0] == if sign == "" then digits[0] else sign[0];
    assert IsDigit(digits[0], 10);
    TrimmedIs(blanks, t);
    assert t == sign + rest && (if sign == "" then t else t[1..]) == rest;
    DigitsOf(digits, tail);
  }

  lemma DigitsOf(digits: string, tail: string)
    requires AllDigits(digits) && (tail != "" ==> !IsDigit(tail[0], 10))
    ensures Leading(digits + tail, 10) == digits
  {
    LeadingPrefix(digits + tail, 10, |digits|);
    assert (digits + tail)[..|digits|] == digits;
  }

  lemma {:induction false} TrimmedIs(blanks: string, t: string)
    requires forall i :: 0 <= i < |blanks| ==> IsSpace(blanks[i])
    requires t != [] && !IsSpace(t[0])
    ensures Trimmed(blanks + t) == t
  {
    if blanks == [] {
      assert blanks + t == t;
    } else {
      assert (blanks + t)[1..] == blanks[1..] + t;
      TrimmedIs(blanks[1..], t);
    }
  }

  /** Without digits only the empty text is a number, zero. */
  lemma StrToNumEmpty(s: string, min: int, max: int)
    requires forall i :: 0 <= i < |s| ==> !IsDigit(s[i], 10)
    ensures StrToNum(s, min, max) == if s == "" && min <= 0 <= max then Some(0) else None
  {
    TrimmedInside(s);
  }

  lemma {:induction false} TrimmedInside(s: string)
    ensures |Trimmed(s)| <= |s| && Trimmed(s) == s[|s| - |Trimmed(s)|..]
  {
    if s != [] && IsSpace(s[0]) { TrimmedInside(s[1..]); }
  }

  lemma StrToNumReads(v: nat, max: nat)
    ensures StrToNum(Numeral(v, 10), 0, max) == if v <= max then Some(v) else None
  {
    var s := Numeral(v, 10);
    NumeralNumber(v, 10);
    assert "" + "" + s + "" == s;
    StrToNumIs("", "", s, "", 0, max);
  }

  /** The complement of a shifted mask of ones: the mask of a prefix length. */
  function PrefixMask(f: Family, nbits: nat): nat
    requires nbits <= Width(f)
  {
    if nbits < Width(f) then
      QuotientBound(Max(f), Pow2(nbits));
      Max(f) - Max(f) / Pow2(nbits)
    else Max(f)
  }

  /** decode_network_address, for the two parts around a slash. */
  function DecodeNetwork(f: Family, codec: Codec, address: string, mask: string): Option<(nat, nat)> {
    match codec.decode(address)
    case None => None
    case Some(network) =>
      if f == V4 && |mask| > 2 then
        match codec.decode(mask)
        case None => None
        case Some(m) => Some((network, m))
      else
        match StrToNum(mask, 0, Width(f))
        case None => None
        case Some(nbits) => if 0 <= nbits <= Width(f) then Some((network, PrefixMask(f, nbits))) else None
  }

  datatype IPAddressType = Address | Subnet | Range

  datatype Decoded = Invalid | Decoded(at: IPAddressType, lower: nat, upper: nat)

  /** decode_ipv4_network_address and decode_ipv6_network_address. */
  function Decode(f: Family, codec: Codec, addr: string, strict: bool): Decoded {
    if Has(addr, '/') then
      var parts := Split(addr, '/');
      if |parts| != 2 then Invalid
      else
        match DecodeNetwork(f, codec, parts[0], parts[1])
        case None => Invalid
        case Some((network, mask)) =>
          if strict && BitAnd(network, mask) != network then Invalid
          else
            var upper := Mod(network + (Max(f) - mask), Pow2(Width(f)));
            if upper < network then Invalid
            else Decoded(if upper > network then Subnet else Address, network, upper)
    else if Has(addr, '-') then
      var parts := Split(addr, '-');
      if |parts| != 2 then Invalid
      else
        match (codec.decode(parts[0]), codec.decode(parts[1]))
        case (Some(lower), Some(upper)) => if lower > upper then Invalid else Decoded(Range, lower, upper)
        case _ => Invalid
    else
      match codec.decode(addr)
      case None => Invalid
      case Some(a) => Decoded(Address, a, a)
  }

  lemma HasConcat(a: string, b: string, c: char)
    ensures Has(a + b, c) <==> Has(a, c) || Has(b, c)
  {
    if Has(a, c) {
      var i :| 0 <= i < |a| && a[i] == c;
      assert (a + b)[i] == c;
    }
    if Has(b, c) {
      var i :| 0 <= i < |b| && b[i] == c;
      assert (a + b)[|a| + i] == c;
    }
  }

  lemma NumeralHas(v: nat, c: char)
    requires !IsDigit(c, 10)
    ensures !Has(Numeral(v, 10), c) && !IsBlank(Numeral(v, 10))
  {
    NumeralNumber(v, 10);
    assert IsDigit(Numeral(v, 10)[0], 10);
  }

  /** A text with one separator between two parts that do not have it. */
  lemma Joined(a: string, sep: char, b: string, c: char)
    ensures Has(a + [sep] + b, c) <==> Has(a, c) || c == sep || Has(b, c)
  {
    HasConcat(a + [sep], b, c);
    HasConcat(a, [sep], c);
    if c == sep { assert [sep][0] == c; }
  }

  /** The mask of a prefix length leaves out the host bits. */
  lemma MaskIs(f: Family, n: nat)
    requires n <= Width(f)
    ensures Pow2(Width(f) - n) <= Pow2(Width(f))
    ensures PrefixMask(f, n) == Pow2(Width(f)) - Pow2(Width(f) - n)
  {
    hide Pow2, Width;
    ShiftedOnes(Width(f), n);
    Pow2Zero();
  }

  lemma ShiftedOnes(b: nat, n: nat)
    requires n <= b
    ensures Pow2(b - n) <= Pow2(b) && (Pow2(b) - 1) / Pow2(n) == Pow2(b - n) - 1
  {
    Pow2Monotone(b - n, b);
    Pow2Add(n, b - n);
    hide Pow2;
    var size := Pow2(b - n);
    Distribute(Pow2(n), size - 1, 1);
    DivMod(Pow2(b) - 1, Pow2(n) - 1, size - 1, Pow2(n));
  }

  /** An address, a slash and a prefix length, as the parser takes them apart. */
  lemma PrefixParts(f: Family, codec: Codec, network: nat, n: nat)
    requires Faithful(f, codec) && network <= Max(f) && (f == V6 || n < 100)
    ensures var address, text := codec.encode(network), codec.encode(network) + "/" + Numeral(n, 10);
      && Has(text, '/')
      && Split(text, '/') == [address, Numeral(n, 10)]
      && DecodeNetwork(f, codec, address, Numeral(n, 10)) ==
           if n <= Width(f) then Some((network, PrefixMask(f, n))) else None
  {
    hide Pow2, Numeral, PrefixMask;
    var address, mask := codec.encode(network), Numeral(n, 10);
    NumeralHas(n, '/');
    Joined(address, '/', mask, '/');
    assert address + "/" + mask == address + ['/'] + mask;
    SplitTwo(address, '/', mask);
    StrToNumReads(n, Width(f));
    ShortNumeral(n);
  }

  lemma ShortNumeral(n: nat)
    ensures n < 100 ==> |Numeral(n, 10)| <= 2
  {
    assert Power(10, 2) == 100;
    if n < 100 { NumeralLength(n, 10, 2); }
  }

  /** What a prefix means to the parser, for every address and every length: the addresses from the one that is
      given, if they do not run over the end; strictly, it must be the first of its block. */
  function PrefixRange(f: Family, network: nat, n: nat, strict: bool): Decoded {
    if n > Width(f) then Invalid
    else
      var size := Pow2(Width(f) - n);
      if strict && network % size != 0 then Invalid
      else if network + size - 1 > Max(f) then Invalid
      else Decoded(if n == Width(f) then Address else Subnet, network, network + size - 1)
  }

  lemma PrefixDecoded(f: Family, codec: Codec, network: nat, n: nat, strict: bool)
    requires Faithful(f, codec) && network <= Max(f) && (f == V6 || n < 100)
    ensures Decode(f, codec, codec.encode(network) + "/" + Numeral(n, 10), strict) == PrefixRange(f, network, n, strict)
  {
    hide Pow2, Numeral, DecodeNetwork, Split, Faithful, PrefixMask;
    PrefixParts(f, codec, network, n);
    if n <= Width(f) {
      MaskIs(f, n);
      MaskedRange(f, network, n);
    }
  }

  /** The last address of a prefix, in the arithmetic of the type. */
  lemma MaskedRange(f: Family, network: nat, n: nat)
    requires network <= Max(f) && n <= Width(f)
    ensures PrefixMask(f, n) <= Max(f)
    ensures var size, mask := Pow2(Width(f) - n), PrefixMask(f, n);
      var upper := Mod(network + (Max(f) - mask), Pow2(Width(f)));
      && (BitAnd(network, mask) == network <==> network % size == 0)
      && (upper < network <==> network + size - 1 > Max(f))
      && (upper >= network ==> upper == network + size - 1 && (upper > network <==> n < Width(f)))
  {
    hide Pow2, Width, BitAnd;
    MaskIs(f, n);
    LastOfBlock(Width(f), network, Width(f) - n);
  }

  lemma LastOfBlock(b: nat, network: nat, k: nat)
    requires network < Pow2(b) && k <= b
    ensures Pow2(k) <= Pow2(b)
    ensures BitAnd(network, Pow2(b) - Pow2(k)) == network <==> network % Pow2(k) == 0
    ensures var upper := Mod(network + (Pow2(k) - 1), Pow2(b));
      && (upper < network <==> network + Pow2(k) - 1 > Pow2(b) - 1)
      && (upper >= network ==> upper == network + Pow2(k) - 1 && (upper > network <==> k > 0))
  {
    MaskClears(network, b, k);
    if k > 0 { Pow2Monotone(1, k); }
    assert Pow2(1) == 2 * Pow2(0) && Pow2(0) == 1;
    hide Pow2, BitAnd;
    var last, wrap := network + Pow2(k) - 1, Pow2(b);
    if last < wrap { NoWrap(last, wrap); } else { DivMod(last, last - wrap, 1, wrap); }
  }

  /** A mask in the form of an address is read like the prefix length that it stands for. */
  lemma DottedMask(codec: Codec, network: nat, n: nat, strict: bool)
    requires Faithful(V4, codec) && network <= Max(V4) && n <= 32 && |codec.encode(PrefixMask(V4, n))| > 2
    ensures Decode(V4, codec, codec.encode(network) + "/" + codec.encode(PrefixMask(V4, n)), strict)
         == Decode(V4, codec, codec.encode(network) + "/" + Numeral(n, 10), strict)
  {
    hide Pow2, Numeral, PrefixMask, BitAnd;
    MaskedRange(V4, network, n);
    PrefixParts(V4, codec, network, n);
    var address, mask := codec.encode(network), codec.encode(PrefixMask(V4, n));
    Joined(address, '/', mask, '/');
    assert address + "/" + mask == address + ['/'] + mask;
    SplitTwo(address, '/', mask);
  }

  /** Two addresses with a hyphen: the range between them, unless they are in the wrong order. */
  lemma BoundsDecoded(f: Family, codec: Codec, lower: nat, upper: nat, strict: bool)
    requires Faithful(f, codec) && lower <= Max(f) && upper <= Max(f)
    ensures Decode(f, codec, codec.encode(lower) + "-" + codec.encode(upper), strict) ==
      if lower > upper then Invalid else Decoded(Range, lower, upper)
  {
    hide Pow2;
    var a, b := codec.encode(lower), codec.encode(upper);
    Joined(a, '-', b, '/');
    Joined(a, '-', b, '-');
    assert a + "-" + b == a + ['-'] + b;
    SplitTwo(a, '-', b);
  }

  /** Anything but two parts around the separators is refused. */
  lemma ThreeParts(f: Family, codec: Codec, a: string, b: string, c: string, strict: bool)
    requires !IsBlank(a) && !IsBlank(b) && !IsBlank(c) && !Has(a, '/') && !Has(b, '/') && !Has(c, '/')
    ensures Decode(f, codec, a + ['/'] + (b + ['/'] + c), strict) == Invalid
    ensures !Has(a, '-') && !Has(b, '-') && !Has(c, '-') ==>
      Decode(f, codec, a + ['-'] + (b + ['-'] + c), strict) == Invalid
  {
    ThreeSplit(a, b, c, '/');
    Joined(a, '/', b + ['/'] + c, '/');
    if !Has(a, '-') && !Has(b, '-') && !Has(c, '-') {
      ThreeSplit(a, b, c, '-');
      Joined(b, '-', c, '/');
      Joined(a, '-', b + ['-'] + c, '/');
      Joined(a, '-', b + ['-'] + c, '-');
    }
  }

  lemma ThreeSplit(a: string, b: string, c: string, delim: char)
    requires !IsBlank(a) && !IsBlank(b) && !IsBlank(c) && !Has(a, delim) && !Has(b, delim) && !Has(c, delim)
    ensures Split(a + [delim] + (b + [delim] + c), delim) == [a, b, c]
  {
    SplitFirst(a, delim, b + [delim] + c);
    SplitTwo(b, delim, c);
  }

  /** A single address. */
  lemma AddressDecoded(f: Family, codec: Codec, address: nat, strict: bool)
    requires Faithful(f, codec) && address <= Max(f)
    ensures Decode(f, codec, codec.encode(address), strict) == Decoded(Address, address, address)
  {
  }

  /** The text of a printed prefix. */
  lemma PrintedPrefix(f: Family, codec: Codec, lower: nat, upper: nat) returns (n: nat)
    requires lower < upper <= Max(f) && PowerSized(upper - lower)
    ensures n < Width(f) && upper - lower + 1 == Pow2(Width(f) - n)
    ensures Printed(f, codec, lower, upper) == codec.encode(lower) + "/" + Numeral(n, 10)
  {
    var diff := upper - lower;
    hide Pow2, Width, Numeral, Ones, PowerOfTwoTest;
    var k := SizeExponent(Width(f), diff);
    PowerOfTwoTestIs(diff, Width(f));
    n := Width(f) - k;
  }

  lemma SizeExponent(b: nat, diff: nat) returns (k: nat)
    requires 0 < diff < Pow2(b) && PowerSized(diff)
    ensures 0 < k <= b && diff + 1 == Pow2(k) && Ones(diff) == k
  {
    k :| IsSize(diff, k);
    PositiveExponent(diff, k);
    PowersOrdered(k, b);
    OnesOfMask(k);
  }

  /** Reading a printed prefix. */
  lemma PrefixReadBack(f: Family, codec: Codec, lower: nat, upper: nat, strict: bool)
    requires Faithful(f, codec) && lower < upper <= Max(f) && PowerSized(upper - lower)
    ensures Decode(f, codec, Printed(f, codec, lower, upper), strict) ==
      if strict && lower % (upper - lower + 1) != 0 then Invalid else Decoded(Subnet, lower, upper)
  {
    hide Pow2, Numeral, Printed, Decode, Faithful;
    var n := PrintedPrefix(f, codec, lower, upper);
    PrefixDecoded(f, codec, lower, n, strict);
  }

  lemma PositiveExponent(diff: nat, k: nat)
    requires diff > 0 && IsSize(diff, k)
    ensures k > 0
  {
  }

  /** What is taken for granted of one address. */
  lemma AddressText(f: Family, codec: Codec, a: nat)
    requires Faithful(f, codec) && a <= Max(f)
    ensures codec.decode(codec.encode(a)) == Some(a) && !IsBlank(codec.encode(a))
    ensures !Has(codec.encode(a), '/') && !Has(codec.encode(a), '-') && !Has(codec.encode(a), '+')
  {
  }

  /** The text of a short range: the first address, and how many follow it. */
  lemma PlusForm(f: Family, codec: Codec, lower: nat, upper: nat)
    requires Faithful(f, codec) && lower <= upper <= Max(f) && !PowerSized(upper - lower) && upper - lower < 1024
    ensures lower < upper
    ensures Printed(f, codec, lower, upper) == codec.encode(lower) + "+" + Numeral(upper - lower, 10)
    ensures Split(Printed(f, codec, lower, upper), '+') == [codec.encode(lower), Numeral(upper - lower, 10)]
    ensures codec.decode(codec.encode(lower)) == Some(lower)
    ensures StrToNum(Numeral(upper - lower, 10), 0, 1023) == Some(upper - lower)
  {
    hide Printed, Faithful, Has, IsBlank, Split, StrToNum, Numeral, Pow2, Width, PowerSized;
    var diff := upper - lower;
    SizeOne(0);
    AddressText(f, codec, lower);
    PrintedPlus(f, codec, lower, upper);
    NumeralHas(diff, '+');
    StrToNumReads(diff, 1023);
    PlusSplit(codec.encode(lower), Numeral(diff, 10));
  }

  lemma PrintedPlus(f: Family, codec: Codec, lower: nat, upper: nat)
    requires lower < upper <= Max(f) && !PowerSized(upper - lower) && upper - lower < 1024
    ensures Printed(f, codec, lower, upper) == codec.encode(lower) + "+" + Numeral(upper - lower, 10)
  {
    hide Pow2, Width, Numeral, PowerOfTwoTest;
    PowerOfTwoTestIs(upper - lower, Width(f));
  }

  lemma PlusSplit(a: string, b: string)
    requires !Has(a, '+') && !Has(b, '+') && !IsBlank(a) && !IsBlank(b)
    ensures Split(a + "+" + b, '+') == [a, b]
  {
    SplitTwo(a, '+', b);
    hide Split, Has, IsBlank;
    assert a + "+" + b == a + ['+'] + b;
  }

  /** Reading the other forms: a single address and two bounds are read back, the short form with '+' is
      not understood. */
  lemma OtherFormsReadBack(f: Family, codec: Codec, lower: nat, upper: nat, strict: bool)
    requires Faithful(f, codec) && lower <= upper <= Max(f) && (lower == upper || !PowerSized(upper - lower))
    ensures Decode(f, codec, Printed(f, codec, lower, upper), strict) ==
      if lower == upper then Decoded(Address, lower, upper)
      else if upper - lower < 1024 then Invalid
      else Decoded(Range, lower, upper)
  {
    hide Pow2, Width, Numeral, Ones, PowerOfTwoTest, Decode, Faithful, Split, StrToNum;
    var diff := upper - lower;
    PowerOfTwoTestIs(diff, Width(f));
    if lower < upper && diff < 1024 {
      PlusForm(f, codec, lower, upper);
      PlusRefused(f, codec, lower, diff, strict);
    } else if lower < upper {
      BoundsDecoded(f, codec, lower, upper, strict);
    } else {
      AddressDecoded(f, codec, lower, strict);
    }
  }

  lemma PlusRefused(f: Family, codec: Codec, lower: nat, diff: nat, strict: bool)
    requires Faithful(f, codec) && lower <= Max(f)
    ensures Decode(f, codec, codec.encode(lower) + "+" + Numeral(diff, 10), strict) == Invalid
  {
    AddressText(f, codec, lower);
    var a, num := codec.encode(lower), Numeral(diff, 10);
    NumeralHas(diff, '/');
    NumeralHas(diff, '-');
    Joined(a, '+', num, '/');
    Joined(a, '+', num, '-');
    Joined(a, '+', num, '+');
    hide Numeral, Has;
    assert a + "+" + num == a + ['+'] + num;
  }

  /** The text is understood as the range, host bits allowed. */
  ghost predicate ReadsBack(f: Family, codec: Codec, text: string, lower: nat, upper: nat) {
    match Decode(f, codec, text, false)
    case Invalid => false
    case Decoded(_, l, u) => l == lower && u == upper
  }

  /** The strict reading of the text accepts it, as the range. */
  ghost predicate ReadsBackStrictly(f: Family, codec: Codec, text: string, lower: nat, upper: nat) {
    match Decode(f, codec, text, true)
    case Invalid => false
    case Decoded(_, l, u) => l == lower && u == upper
  }

  /** A printed range is read back as the same bounds exactly when it is not in the form with '+'; strictly,
      when a prefix is aligned too. */
  lemma ReadBackIff(f: Family, codec: Codec, lower: nat, upper: nat)
    requires Faithful(f, codec) && lower <= upper <= Max(f)
    ensures ReadsBack(f, codec, Printed(f, codec, lower, upper), lower, upper) <==>
            PowerSized(upper - lower) || upper - lower >= 1024
    ensures ReadsBackStrictly(f, codec, Printed(f, codec, lower, upper), lower, upper) <==>
            if PowerSized(upper - lower) then lower % (upper - lower + 1) == 0 else upper - lower >= 1024
  {
    hide Printed, Decode, Faithful, Pow2;
    if lower < upper && PowerSized(upper - lower) {
      PrefixReadBack(f, codec, lower, upper, false);
      PrefixReadBack(f, codec, lower, upper, true);
    } else {
      if lower == upper { SizeOne(lower); }
      OtherFormsReadBack(f, codec, lower, upper, false);
      OtherFormsReadBack(f, codec, lower, upper, true);
    }
  }

  lemma SizeOne(x: nat)
    ensures PowerSized(0) && x % 1 == 0
  {
    assert IsSize(0, 0);
  }

  /** to_string: what is printed is read back as the range, but for the short form. */
  method ToString(f: Family, codec: Codec, lower: nat, upper: nat) returns (result: string)
    requires lower <= upper <= Max(f)
    ensures Faithful(f, codec) ==>
      (ReadsBack(f, codec, result, lower, upper) <==> PowerSized(upper - lower) || upper - lower >= 1024)
    ensures Faithful(f, codec) ==>
      (ReadsBackStrictly(f, codec, result, lower, upper) <==>
        if PowerSized(upper - lower) then lower % (upper - lower + 1) == 0 else upper - lower >= 1024)
    ensures result == Printed(f, codec, lower, upper)
  {
    hide Pow2, Numeral, Faithful, ReadsBack, ReadsBackStrictly, PowerSized;
    var diff := upper - lower;
    var lowAddress := codec.encode(lower);
    if lower == upper {
      result := lowAddress;
    } else if PowerOfTwoTest(diff, Max(f)) {
      var count := BitCount(diff);
      OnesBound(diff, Width(f));
      result := lowAddress + "/" + Numeral(Width(f) - count, 10);
    } else if diff < 1024 {
      result := lowAddress + "+" + Numeral(diff, 10);
    } else {
      var highAddress := codec.encode(upper);
      result := lowAddress + "-" + highAddress;
    }
    if Faithful(f, codec) {
      ReadBackIff(f, codec, lower, upper);
    }
  }

  /** Ipv6Range, which may stand for an IPv4 range; then its bounds must fit. */
  predicate ValidIpv6Range(lower: nat, upper: nat, ipv4Format: bool) {
    lower <= upper <= Max(V6) && (ipv4Format ==> upper <= Max(V4))
  }

  method Ipv6ToString(codec4: Codec, codec6: Codec, lower: nat, upper: nat, ipv4Format: bool) returns (text: string, ok: bool)
    requires lower <= upper <= Max(V6)
    ensures ok <==> ValidIpv6Range(lower, upper, ipv4Format)
    ensures ok && ipv4Format && Faithful(V4, codec4) ==>
      (ReadsBack(V4, codec4, text, lower, upper) <==> PowerSized(upper - lower) || upper - lower >= 1024)
    ensures ok && !ipv4Format && Faithful(V6, codec6) ==>
      (ReadsBack(V6, codec6, text, lower, upper) <==> PowerSized(upper - lower) || upper - lower >= 1024)
    ensures ok && ipv4Format ==> upper <= Max(V4) && text == Printed(V4, codec4, lower, upper)
    ensures ok && !ipv4Format ==> text == Printed(V6, codec6, lower, upper)
  {
    hide Pow2, Faithful, ReadsBack, ReadsBackStrictly, PowerSized, Printed;
    if ipv4Format && (lower > Max(V4) || upper > Max(V4)) {
      return "", false;
    }
    ok := true;
    if ipv4Format {
      text := ToString(V4, codec4, lower, upper);
    } else {
      text := ToString(V6, codec6, lower, upper);
    }
  }
}
