/**
 What the texts of a hosts string denote, said from their written parts: an address, a
 block, a range in its short and its long form, or a name; and whole strings of them.
 */
module HostWriting {
  import opened Lists
  import opened Bytes
  import opened Address
  import opened Text
  import opened Dedup
  import opened HostList
  import opened HostText
  import opened HostBuild
  import opened HostFilter

  // ------------------------------------------------------------ What libc accepts

  predicate Only4(s: string) {
    forall i :: 0 <= i < |s| ==> IsDigit(s[i]) || s[i] == '.'
  }

  predicate Only6(s: string) {
    forall i :: 0 <= i < |s| ==> IsHexDigit(s[i]) || s[i] == ':' || s[i] == '.'
  }

  predicate IsNameChar(c: char) {
    IsDigit(c) || 'a' <= c <= 'z' || 'A' <= c <= 'Z' || c == '_' || c == '-' || c == '.'
  }

  predicate OnlyName(s: string) {
    forall i :: 0 <= i < |s| ==> IsNameChar(s[i])
  }

  /** The characters of what inet_pton and the host name test accept. */
  ghost predicate Standard(c: Codec) {
    && (forall s :: c.pton4(s).Some? ==> Only4(s) && '.' in s)
    && (forall s :: c.pton6(s).Some? ==> Only6(s) && ':' in s)
    && (forall s :: c.isHostname(s) ==> OnlyName(s) && s != "")
  }

  lemma {:induction false} AddressText(c: Codec, s: string)
    requires Standard(c) && (c.pton4(s).Some? || c.pton6(s).Some?)
    ensures s != "" && '/' !in s && '-' !in s && ',' !in s && '\n' !in s && Stripped(s)
  {
  }

  lemma {:induction false} OneFamily(c: Codec, s: string)
    requires Standard(c)
    ensures !(c.pton4(s).Some? && c.pton6(s).Some?)
    ensures c.pton4(s).Some? ==> !AllDigits(s)
    ensures c.pton6(s).Some? ==> !AllHexDigits(s)
  {
  }

  // ---------------------------------------------------------------- Written texts

  /** A host definition, by its parts. */
  datatype Written =
    | Address(a: string)
    | Block(a: string, digits: string)
    | Short(a: string, end: string)
    | Long(a: string, b: string)
    | HostName(n: string)

  function TextOf(w: Written): string {
    match w
    case Address(a) => a
    case Block(a, digits) => a + "/" + digits
    case Short(a, end) => a + "-" + end
    case Long(a, b) => a + "-" + b
    case HostName(n) => n
  }

  predicate Number(s: string, max: nat) {
    s != "" && AllDigits(s) && Decimal(s) <= max
  }

  /** A definition of IPv4 hosts. */
  predicate Written4(c: Codec, w: Written) {
    match w
    case Address(a) => c.pton4(a).Some?
    case Block(a, digits) => c.pton4(a).Some? && Number(digits, 30) && Decimal(digits) >= 1 && |digits| <= 2
    case Short(a, end) => c.pton4(a).Some? && Number(end, 255)
    case Long(a, b) => c.pton4(a).Some? && c.pton4(b).Some?
    case HostName(_) => false
  }

  /** A definition of IPv6 hosts. */
  predicate Written6(c: Codec, w: Written) {
    match w
    case Address(a) => c.pton6(a).Some?
    case Block(a, digits) => c.pton6(a).Some? && Number(digits, 128) && Decimal(digits) >= 1 && |digits| <= 3
    case Short(a, end) => c.pton6(a).Some? && 1 <= |end| <= 4 && AllHexDigits(end)
    case Long(a, b) => c.pton6(a).Some? && c.pton6(b).Some?
    case HostName(_) => false
  }

  /** A name: accepted as one, no address, and not an address in front of its first hyphen. */
  predicate WrittenName(c: Codec, w: Written) {
    && w.HostName? && c.isHostname(w.n) && c.pton4(w.n).None? && c.pton6(w.n).None?
    && var i := Find(w.n, '-');
       i < |w.n| ==> c.pton4(w.n[..i]).None? && c.pton6(w.n[..i]).None?
  }

  predicate WellWritten(c: Codec, w: Written) {
    Written4(c, w) || Written6(c, w) || WrittenName(c, w)
  }

  // ---------------------------------------------------------------- What they denote

  /** The IPv4 addresses from lo to hi, in ascending order. */
  predicate Ascending4(ids: seq<HostId>, lo: int, hi: int) {
    && |ids| == (if lo <= hi then hi - lo + 1 else 0)
    && forall i :: 0 <= i < |ids| ==> ids[i].V4? && ids[i].addr4 == lo + i
  }

  /** The IPv6 addresses from lo to hi, in ascending order. */
  predicate Ascending6(ids: seq<HostId>, lo: int, hi: int) {
    && |ids| == (if lo <= hi then hi - lo + 1 else 0)
    && forall i :: 0 <= i < |ids| ==> ids[i].V6? && Value(ids[i].addr6) == lo + i
  }

  /** The first and last address of an IPv4 definition: the address; of a block of 2^h
      addresses the second and the last but one; or the address and the one with the given
      last byte or the given one. */
  function Ends4(c: Codec, w: Written): (int, int)
    requires Written4(c, w)
  {
    var a := c.pton4(w.a).value;
    match w
    case Address(_) => (a, a)
    case Block(_, digits) =>
      var size := Pow2(32 - Decimal(digits));
      (a / size * size + 1, a / size * size + size - 2)
    case Short(_, end) => (a, a / 256 * 256 + Decimal(end))
    case Long(_, b) => (a, c.pton4(b).value)
  }

  /** The same of a block of IPv6 addresses; a /127 has both addresses and a /128 the one. */
  function BlockEnds6(v: nat, bits: nat): (int, int)
    requires 1 <= bits <= 128
  {
    var size := Pow2(128 - bits);
    if bits == 128 then (v, v)
    else if bits == 127 then (v / 2 * 2, v / 2 * 2 + 1)
    else (v / size * size + 1, v / size * size + size - 2)
  }

  function Ends6(c: Codec, w: Written): (int, int)
    requires Written6(c, w)
  {
    var a := Value(c.pton6(w.a).value);
    match w
    case Address(_) => (a, a)
    case Block(_, digits) => BlockEnds6(a, Decimal(digits))
    case Short(_, end) => (a, a / 65536 * 65536 + Hexadecimal(end))
    case Long(_, b) => (a, Value(c.pton6(b).value))
  }

  /** The hosts of a definition: all addresses from its first to its last one in ascending
      order, or the name in lower case. */
  predicate Denotes(c: Codec, w: Written, ids: seq<HostId>)
    requires WellWritten(c, w)
  {
    if Written4(c, w) then Ascending4(ids, Ends4(c, w).0, Ends4(c, w).1)
    else if Written6(c, w) then Ascending6(ids, Ends6(c, w).0, Ends6(c, w).1)
    else ids == [Name(Lower(w.n))]
  }

  // -------------------------------------------------------------------- The shapes

  lemma {:induction false} SlashShape(a: string, d: string)
    requires '/' !in a && '-' !in a && '-' !in d
    ensures var s := a + "/" + d;
            && s != "" && Find(s, '/') == |a| < |s| && Find(s, '-') == |s| && s[..|a|] == a && s[|a| + 1..] == d
            && '/' in s
  {
    var s := a + "/" + d;
    assert s[|a|] == '/';
    FindUnique(s, '/', |a|);
    FindUnique(s, '-', |s|);
  }

  lemma {:induction false} HyphenShape(a: string, b: string)
    requires '/' !in a && '-' !in a && '/' !in b
    ensures var s := a + "-" + b;
            && s != "" && Find(s, '-') == |a| < |s| && Find(s, '/') == |s| && s[..|a|] == a && s[|a| + 1..] == b
            && '-' in s
  {
    var s := a + "-" + b;
    assert s[|a|] == '-';
    FindUnique(s, '-', |a|);
    FindUnique(s, '/', |s|);
  }

  lemma {:induction false} NoAddress(c: Codec, s: string)
    requires Standard(c) && ('/' in s || '-' in s)
    ensures c.pton4(s).None? && c.pton6(s).None?
    ensures '/' in s ==> !c.isHostname(s)
  {
  }

  lemma {:induction false} NumberText(s: string, max: nat)
    requires max < LONG_MAX
    ensures Number(s, max) <==> IsNumberUpTo(s, max)
    ensures Number(s, max) ==> Strtol(s).value == Decimal(s) && '-' !in s && '/' !in s
  {
    hide Strtol;
    NumberIsDecimal(s, max);
    if Number(s, max) {
      StrtolOfDigit(s);
      DigitRunOf(s, "");
      assert s + "" == s && s[..|s|] == s;
    }
  }

  lemma {:induction false} HexText(s: string)
    requires AllHexDigits(s)
    ensures '-' !in s && '/' !in s && ':' !in s && ',' !in s && '\n' !in s && Stripped(s)
  {
  }

  // ------------------------------------------------------------ What the texts read as

  lemma {:induction false} BlockRead(c: Codec, a: string, d: string)
    requires Standard(c) && (c.pton4(a).Some? || c.pton6(a).Some?) && AllDigits(d) && d != ""
    ensures ParseElement(c, a + "/" + d) ==
            if c.pton4(a).Some? && Number(d, 30) && Decimal(d) > 0 then
              NumberText(d, 30);
              Block4(c.pton4(a).value, d)
            else if c.pton6(a).Some? && Number(d, 128) && Decimal(d) > 0 then
              NumberText(d, 128);
              Block6(c.pton6(a).value, d)
            else Invalid
  {
    AddressText(c, a);
    OneFamily(c, a);
    assert '-' !in d;
    SlashShape(a, d);
    NumberText(d, 30);
    NumberText(d, 128);
    NoAddress(c, a + "/" + d);
    hide Standard, Strtol, IsNumberUpTo, Number, Block4, Block6, Hexadecimal;
    BlockParsed(c, a + "/" + d);
  }

  /** The order of the tests, for a text with a slash and without a hyphen. */
  lemma {:induction false} BlockParsed(c: Codec, s: string)
    requires s != "" && Find(s, '-') == |s| && Find(s, '/') < |s|
    requires c.pton4(s).None? && c.pton6(s).None? && !c.isHostname(s)
    ensures var i := Find(s, '/');
            ParseElement(c, s) ==
            if IsCidr4(c, s) then Block4(c.pton4(s[..i]).value, s[i + 1..])
            else if IsCidr6(c, s) then Block6(c.pton6(s[..i]).value, s[i + 1..])
            else Invalid
  {
    hide Block4, Block6, Hexadecimal, Strtol, IsNumberUpTo, Find;
  }

  /** The order of the tests, for a text with a hyphen and without a slash. */
  lemma {:induction false} RangeParsed(c: Codec, s: string)
    requires s != "" && Find(s, '/') == |s| && Find(s, '-') < |s| && c.pton4(s).None? && c.pton6(s).None?
    ensures var i := Find(s, '-');
            var a, b := s[..i], s[i + 1..];
            ParseElement(c, s) ==
            if c.pton4(a).Some? && IsNumberUpTo(b, 255) then
              Range4(c.pton4(a).value, ShortRange4Last(c.pton4(a).value, Strtol(b).value))
            else if c.pton4(a).Some? && c.pton4(b).Some? then Range4(c.pton4(a).value, c.pton4(b).value)
            else if c.pton6(a).Some? && 1 <= |b| <= 4 && AllHexDigits(b) then
              FourHexDigits(b);
              Range6(c.pton6(a).value, ShortRange6Last(c.pton6(a).value, Hexadecimal(b)))
            else if c.pton6(a).Some? && c.pton6(b).Some? then Range6(c.pton6(a).value, c.pton6(b).value)
            else if c.isHostname(s) then Single(Name(Lower(s)))
            else Invalid
  {
    hide Block4, Block6, Hexadecimal, Strtol, ShortRange4Last, ShortRange6Last, Find;
  }

  /** What a short IPv4 range reads as. An end above 255 leaves a text that may be a name. */
  lemma {:induction false} Short4Read(c: Codec, a: string, d: string)
    requires Standard(c) && c.pton4(a).Some? && AllDigits(d) && d != ""
    ensures var s := a + "-" + d;
            ParseElement(c, s) ==
            if Decimal(d) <= 255 then Range4(c.pton4(a).value, ShortRange4Last(c.pton4(a).value, Decimal(d)))
            else if c.isHostname(s) then Single(Name(Lower(s)))
            else Invalid
  {
    AddressText(c, a);
    OneFamily(c, a);
    OneFamily(c, d);
    assert '/' !in d;
    HyphenShape(a, d);
    NumberText(d, 255);
    NoAddress(c, a + "-" + d);
    hide Standard, Strtol, IsNumberUpTo, ShortRange4Last, ShortRange6Last, Hexadecimal;
    RangeParsed(c, a + "-" + d);
  }

  lemma {:induction false} Short6Read(c: Codec, a: string, hex: string)
    requires Standard(c) && c.pton6(a).Some? && 1 <= |hex| <= 4 && AllHexDigits(hex)
    ensures Hexadecimal(hex) <= 0xffff
    ensures ParseElement(c, a + "-" + hex) ==
            Range6(c.pton6(a).value, ShortRange6Last(c.pton6(a).value, Hexadecimal(hex)))
  {
    AddressText(c, a);
    OneFamily(c, a);
    HexText(hex);
    FourHexDigits(hex);
    HyphenShape(a, hex);
    NoAddress(c, a + "-" + hex);
    hide Standard, Strtol, IsNumberUpTo, ShortRange4Last, ShortRange6Last, Hexadecimal;
    RangeParsed(c, a + "-" + hex);
  }

  lemma {:induction false} LongRead(c: Codec, a: string, b: string)
    requires Standard(c)
    requires (c.pton4(a).Some? && c.pton4(b).Some?) || (c.pton6(a).Some? && c.pton6(b).Some?)
    ensures ParseElement(c, a + "-" + b) ==
            if c.pton4(a).Some? then Range4(c.pton4(a).value, c.pton4(b).value)
            else Range6(c.pton6(a).value, c.pton6(b).value)
  {
    AddressText(c, a);
    AddressText(c, b);
    OneFamily(c, a);
    OneFamily(c, b);
    HyphenShape(a, b);
    NumberText(b, 255);
    NoAddress(c, a + "-" + b);
    hide Standard, Strtol, IsNumberUpTo, ShortRange4Last, ShortRange6Last, Hexadecimal;
    RangeParsed(c, a + "-" + b);
  }

  lemma {:induction false} AddressRead(c: Codec, a: string)
    requires Standard(c) && (c.pton4(a).Some? || c.pton6(a).Some?)
    ensures ParseElement(c, a) ==
            Single(if c.pton4(a).Some? then V4(c.pton4(a).value) else V6(c.pton6(a).value))
  {
    AddressText(c, a);
  }

  lemma {:induction false} NameRead(c: Codec, n: string)
    requires Standard(c) && WrittenName(c, HostName(n))
    ensures ParseElement(c, n) == Single(Name(Lower(n)))
  {
    assert n != "" && '/' !in n;
    FindUnique(n, '/', |n|);
    hide Standard, Strtol, IsNumberUpTo, ShortRange4Last, ShortRange6Last, Hexadecimal, Block4, Block6;
    if Find(n, '-') < |n| {
      RangeParsed(c, n);
    }
  }

  // -------------------------------------------------------------- What they expand to

  lemma {:induction false} Expand4(first: addr4, last: addr4)
    ensures Ascending4(Expand(Range4(first, last)), first, last)
  {
  }

  lemma {:induction false} Expand6(first: addr6, last: addr6)
    ensures Ascending6(Expand(Range6(first, last)), Value(first), Value(last))
  {
    hide Encode, Value, Shift;
    var a, b := Value(first), Value(last);
    ValueBound(last);
    var ids := Expand(Range6(first, last));
    forall i | 0 <= i < |ids|
      ensures ids[i].V6? && Value(ids[i].addr6) == a + i
    {
      ValueOfEncode(a + i, 16);
    }
  }

  lemma {:induction false} Block4Range(a: addr4, d: string)
    requires IsNumberUpTo(d, 30) && Number(d, 30) && Decimal(d) >= 1 && |d| <= 2
    ensures var e, size := Block4(a, d), Pow2(32 - Decimal(d));
            e.Range4? && e.first4 == a / size * size + 1 && e.last4 == a / size * size + size - 2
            && e.last4 < V4_SIZE - 1
  {
    hide IsNumberUpTo, Decimal, Pow2, BlockStart;
    assert d[..|d|] == d;
    BlockStartMeaning(a, 32 - Decimal(d));
  }

  lemma {:induction false} Block6Range(a: addr6, d: string)
    requires IsNumberUpTo(d, 128) && Number(d, 128) && Decimal(d) >= 1 && |d| <= 3
    ensures var bits := Decimal(d); Block6(a, d) == Range6(Cidr6First(a, bits), Cidr6Last(a, bits))
  {
    hide IsNumberUpTo, Decimal, Cidr6First, Cidr6Last;
    assert d[..|d|] == d;
  }

  lemma {:induction false} SixteenBits(v: nat)
    ensures BlockStart(v, 16) == v / 65536 * 65536
  {
    hide BlockStart;
    Pow2Plus8(8);
    Pow2Plus8(0);
    BlockStartMeaning(v, 16);
  }

  lemma {:induction false} EightBits(v: nat)
    ensures BlockStart(v, 8) == v / 256 * 256
  {
    hide BlockStart;
    Pow2Plus8(0);
    BlockStartMeaning(v, 8);
  }

  /** The text of an IPv4 definition is read as the range between its ends. */
  lemma {:induction false} Read4(c: Codec, w: Written)
    requires Standard(c) && Written4(c, w)
    ensures var e := ParseElement(c, TextOf(w));
            if w.Address? then e == Single(V4(c.pton4(w.a).value))
            else e.Range4? && e.first4 == Ends4(c, w).0 && e.last4 == Ends4(c, w).1
  {
    hide ParseElement, Pow2, Decimal, Standard, BlockStart, Block4;
    match w
    case Address(a) => AddressRead(c, a);
    case Block(a, d) =>
      NumberText(d, 30);
      BlockRead(c, a, d);
      Block4Range(c.pton4(a).value, d);
    case Short(a, end) =>
      Short4Read(c, a, end);
      EightBits(c.pton4(a).value);
    case Long(a, b) => LongRead(c, a, b);
  }

  lemma {:induction false} BlockEndsAre(v: addr6, bits: nat)
    requires 1 <= bits <= 128
    ensures (Value(Cidr6First(v, bits)), Value(Cidr6Last(v, bits))) == BlockEnds6(Value(v), bits)
  {
    hide Pow2, Cidr6First, Cidr6Last, Value;
    Cidr6Functions(v, bits);
  }

  lemma {:induction false} BlockRead6(c: Codec, a: string, d: string)
    requires Standard(c) && Written6(c, Block(a, d))
    ensures var e := ParseElement(c, a + "/" + d);
            e.Range6? && (Value(e.first6), Value(e.last6)) == BlockEnds6(Value(c.pton6(a).value), Decimal(d))
  {
    OneFamily(c, a);
    NumberText(d, 128);
    BlockRead(c, a, d);
    hide ParseElement, Decimal, Standard, Cidr6First, Cidr6Last, Value, BlockEnds6, Block4, Block6;
    Block6Range(c.pton6(a).value, d);
    BlockEndsAre(c.pton6(a).value, Decimal(d));
  }

  /** The text of an IPv6 definition is read as the range between its ends. */
  lemma {:induction false} Read6(c: Codec, w: Written)
    requires Standard(c) && Written6(c, w)
    ensures var e := ParseElement(c, TextOf(w));
            if w.Address? then e == Single(V6(c.pton6(w.a).value))
            else e.Range6? && (Value(e.first6), Value(e.last6)) == Ends6(c, w)
  {
    OneFamily(c, w.a);
    hide ParseElement, BlockEnds6, Decimal, Standard, BlockStart, Hexadecimal, Value;
    match w
    case Address(a) => AddressRead(c, a);
    case Block(a, d) => BlockRead6(c, a, d);
    case Short(a, end) => ShortRead6(c, a, end);
    case Long(a, b) => LongRead(c, a, b);
  }

  lemma {:induction false} ShortRead6(c: Codec, a: string, end: string)
    requires Standard(c) && c.pton6(a).Some? && 1 <= |end| <= 4 && AllHexDigits(end)
    ensures var e, v := ParseElement(c, a + "-" + end), Value(c.pton6(a).value);
            e.Range6? && Value(e.first6) == v && Value(e.last6) == v / 65536 * 65536 + Hexadecimal(end)
  {
    hide ParseElement, Standard, BlockStart, Hexadecimal, Value;
    Short6Read(c, a, end);
    SixteenBits(Value(c.pton6(a).value));
  }

  /** Every written definition stands for the hosts it denotes. */
  lemma {:induction false} Denoted(c: Codec, w: Written)
    requires Standard(c) && WellWritten(c, w)
    ensures Denotes(c, w, Expand(ParseElement(c, TextOf(w))))
  {
    hide ParseElement, Ends4, Ends6, Value, Encode, Standard;
    var e := ParseElement(c, TextOf(w));
    if Written4(c, w) {
      Read4(c, w);
      if w.Address? {
        OneAddress4(c, w);
      } else {
        Expand4(e.first4, e.last4);
      }
    } else if Written6(c, w) {
      Read6(c, w);
      if w.Address? {
        OneAddress6(c, w);
      } else {
        Expand6(e.first6, e.last6);
      }
    } else {
      NameRead(c, w.n);
    }
  }

  lemma {:induction false} OneAddress4(c: Codec, w: Written)
    requires Written4(c, w) && w.Address?
    ensures Ends4(c, w) == (c.pton4(w.a).value, c.pton4(w.a).value)
  {
  }

  lemma {:induction false} OneAddress6(c: Codec, w: Written)
    requires Written6(c, w) && w.Address?
    ensures Ends6(c, w) == (Value(c.pton6(w.a).value), Value(c.pton6(w.a).value))
  {
  }

  lemma {:induction false} SameAscending6(x: seq<HostId>, y: seq<HostId>, lo: int, hi: int)
    requires Ascending6(x, lo, hi) && Ascending6(y, lo, hi)
    ensures x == y
  {
    forall i | 0 <= i < |x|
      ensures x[i] == y[i]
    {
      ValueInjective(x[i].addr6, y[i].addr6);
    }
  }

  /** A definition denotes one list of hosts. */
  lemma {:induction false} DenotesOne(c: Codec, w: Written, x: seq<HostId>, y: seq<HostId>)
    requires WellWritten(c, w) && Denotes(c, w, x) && Denotes(c, w, y)
    ensures x == y
  {
    hide Ends4, Ends6;
    if !Written4(c, w) && Written6(c, w) {
      SameAscending6(x, y, Ends6(c, w).0, Ends6(c, w).1);
    }
  }

  /** The definition is a block or a range whose hosts end with the last address of the
      family. */
  predicate ToTheLast(w: Written, ids: seq<HostId>) {
    && !w.Address? && !w.HostName? && ids != []
    && match ids[|ids| - 1]
       case V4(a) => a == V4_SIZE - 1
       case V6(a) => AllOnes(a)
       case Name(_) => false
  }

  lemma {:induction false} WrittenElement(c: Codec, w: Written)
    requires Standard(c) && WellWritten(c, w)
    ensures var e := ParseElement(c, TextOf(w));
            !e.Invalid? && !e.Undefined? && (Endless(e) <==> ToTheLast(w, Expand(e)))
  {
    hide ParseElement, Ends4, Ends6, Value, Encode, Standard;
    var e := ParseElement(c, TextOf(w));
    if Written4(c, w) {
      Read4(c, w);
    } else if Written6(c, w) {
      Read6(c, w);
      if e.Range6? {
        Expand6(e.first6, e.last6);
        var ids := Expand(e);
        if ids != [] {
          ValueInjective(ids[|ids| - 1].addr6, e.last6);
        }
      }
    } else {
      NameRead(c, w.n);
    }
  }

  // ---------------------------------------------------------------- Whole strings

  /** A piece of a hosts string: blank, or a definition with white space around it. */
  datatype Piece = Blank(space: string) | Item(pre: string, w: Written, post: string)

  function PieceText(p: Piece): string {
    match p
    case Blank(space) => space
    case Item(pre, w, post) => pre + TextOf(w) + post
  }

  predicate GoodPiece(c: Codec, p: Piece) {
    match p
    case Blank(space) => Spacing(space)
    case Item(pre, w, post) => Spacing(pre) && Spacing(post) && WellWritten(c, w)
  }

  predicate GoodPieces(c: Codec, ps: seq<Piece>) {
    forall i :: 0 <= i < |ps| ==> GoodPiece(c, ps[i])
  }

  /** What a piece denotes. */
  predicate PieceDenotes(c: Codec, p: Piece, ids: seq<HostId>)
    requires GoodPiece(c, p)
  {
    match p
    case Blank(_) => ids == []
    case Item(_, w, _) => Denotes(c, w, ids)
  }

  predicate AllDenote(c: Codec, ps: seq<Piece>, idss: seq<seq<HostId>>)
    requires GoodPieces(c, ps)
  {
    |ps| == |idss| && forall i :: 0 <= i < |ps| ==> PieceDenotes(c, ps[i], idss[i])
  }

  function Flat(idss: seq<seq<HostId>>): seq<HostId> {
    if idss == [] then [] else Flat(idss[..|idss| - 1]) + idss[|idss| - 1]
  }

  /** No block or range goes to the last address of its family. */
  predicate NoneToTheLast(ps: seq<Piece>, idss: seq<seq<HostId>>)
    requires |ps| == |idss|
  {
    forall i :: 0 <= i < |ps| && ps[i].Item? ==> !ToTheLast(ps[i].w, idss[i])
  }

  function Texts(ps: seq<Piece>): (r: seq<string>)
    ensures |r| == |ps|
  {
    seq(|ps|, i requires 0 <= i < |ps| => PieceText(ps[i]))
  }

  lemma {:induction false} DigitsPlain(s: string)
    requires AllDigits(s)
    ensures ',' !in s && '\n' !in s && Stripped(s)
  {
  }

  lemma {:induction false} NamePlain(c: Codec, s: string)
    requires Standard(c) && c.isHostname(s)
    ensures s != "" && ',' !in s && '\n' !in s && Stripped(s)
  {
  }

  lemma {:induction false} JoinedPlain(a: string, mark: string, b: string)
    requires a != "" && Stripped(a) && Stripped(b) && b != "" && |mark| == 1
    requires ',' !in a + mark + b && '\n' !in a + mark + b
    ensures var s := a + mark + b; s != "" && ',' !in s && '\n' !in s && Stripped(s)
  {
    var s := a + mark + b;
    assert s[0] == a[0] && s[|s| - 1] == b[|b| - 1];
  }

  lemma {:induction false} WrittenPlain(c: Codec, w: Written)
    requires Standard(c) && WellWritten(c, w)
    ensures var s := TextOf(w); s != "" && ',' !in s && '\n' !in s && Stripped(s)
  {
    if w.HostName? {
      NamePlain(c, w.n);
    } else {
      AddressText(c, w.a);
      match w
      case Address(_) =>
      case Block(a, d) =>
        DigitsPlain(d);
        JoinedPlain(a, "/", d);
      case Short(a, end) =>
        if AllDigits(end) {
          DigitsPlain(end);
        } else {
          HexText(end);
        }
        JoinedPlain(a, "-", end);
      case Long(a, b) =>
        AddressText(c, b);
        JoinedPlain(a, "-", b);
    }
  }

  lemma {:induction false} PieceStripped(c: Codec, p: Piece)
    requires Standard(c) && GoodPiece(c, p)
    ensures ',' !in PieceText(p) && '\n' !in PieceText(p)
    ensures Strip(PieceText(p)) == if p.Blank? then "" else TextOf(p.w)
    ensures p.Item? ==> TextOf(p.w) != ""
  {
    hide Strip, Standard, WellWritten, TextOf;
    match p
    case Blank(space) =>
      SpacingPlain(space);
      assert space + "" + "" == space;
      StripAround(space, "", "");
    case Item(pre, w, post) =>
      SpacingPlain(pre);
      SpacingPlain(post);
      WrittenPlain(c, w);
      StripAround(pre, TextOf(w), post);
  }

  ghost predicate AllDefined(es: seq<Element>) {
    forall i :: 0 <= i < |es| ==> !es[i].Invalid? && !es[i].Undefined?
  }

  ghost predicate AllEnd(es: seq<Element>) {
    forall i :: 0 <= i < |es| ==> !Endless(es[i])
  }

  lemma {:induction false} OneElementMore(es: seq<Element>, e: Element)
    ensures Total(es + [e]) == Total(es) + Expand(e)
    ensures AllEnd(es + [e]) <==> AllEnd(es) && !Endless(e)
    ensures AllDefined(es + [e]) <==> AllDefined(es) && !e.Invalid? && !e.Undefined?
  {
    hide Expand, Endless, Total;
    TotalSnoc(es, e);
    assert (es + [e])[|es|] == e && forall i :: 0 <= i < |es| ==> (es + [e])[i] == es[i];
  }

  lemma {:induction false} ElementsLonger(parse: string -> Element, pieces: seq<string>, piece: string)
    ensures var es, e := Elements(parse, pieces), parse(Strip(piece));
            var fs := Elements(parse, pieces + [piece]);
            if Strip(piece) == "" then fs == es
            else
              && Total(fs) == Total(es) + Expand(e) && (AllEnd(fs) <==> AllEnd(es) && !Endless(e))
              && (AllDefined(fs) <==> AllDefined(es) && !e.Invalid? && !e.Undefined?)
  {
    hide Expand, Endless, Strip, Total, AllEnd, AllDefined;
    assert (pieces + [piece])[..|pieces|] == pieces;
    OneElementMore(Elements(parse, pieces), parse(Strip(piece)));
  }

  /** The elements of the pieces, whatever the pieces are made of. */
  ghost predicate Reads(c: Codec, ps: seq<Piece>, idss: seq<seq<HostId>>)
    requires |ps| == |idss|
  {
    var es := Elements(Parser(c), Texts(ps));
    Total(es) == Flat(idss) && AllDefined(es) && (AllEnd(es) <==> NoneToTheLast(ps, idss))
  }

  lemma {:induction false} OnePieceMore(c: Codec, ps: seq<Piece>, idss: seq<seq<HostId>>, p: Piece, ids: seq<HostId>)
    requires |ps| == |idss| && Reads(c, ps, idss) && Standard(c) && GoodPiece(c, p) && PieceDenotes(c, p, ids)
    ensures Reads(c, ps + [p], idss + [ids])
  {
    hide Strip, Standard, GoodPiece, PieceDenotes, Expand, Endless, ToTheLast, ParseElement, PieceText;
    hide Elements, Total, AllDefined, AllEnd, NoneToTheLast;
    assert Texts(ps + [p]) == Texts(ps) + [PieceText(p)];
    assert (idss + [ids])[..|idss|] == idss && (ps + [p])[..|ps|] == ps;
    ElementsLonger(Parser(c), Texts(ps), PieceText(p));
    PieceStripped(c, p);
    NoneSnoc(ps + [p], idss + [ids]);
    PieceElement(c, p, ids);
  }

  lemma {:induction false} PieceElements(c: Codec, ps: seq<Piece>, idss: seq<seq<HostId>>)
    requires Standard(c) && GoodPieces(c, ps) && AllDenote(c, ps, idss)
    ensures Reads(c, ps, idss)
  {
    hide Reads, Standard, GoodPiece, PieceDenotes;
    if ps == [] {
      NoReads(c);
    } else {
      var n := |ps| - 1;
      PieceElements(c, ps[..n], idss[..n]);
      OnePieceMore(c, ps[..n], idss[..n], ps[n], idss[n]);
      assert ps == ps[..n] + [ps[n]] && idss == idss[..n] + [idss[n]];
    }
  }

  lemma {:induction false} NoReads(c: Codec)
    ensures Reads(c, [], [])
  {
  }

  lemma {:induction false} NoneSnoc(ps: seq<Piece>, idss: seq<seq<HostId>>)
    requires ps != [] && |ps| == |idss|
    ensures var n := |ps| - 1;
            NoneToTheLast(ps, idss) <==>
            NoneToTheLast(ps[..n], idss[..n]) && (ps[n].Item? ==> !ToTheLast(ps[n].w, idss[n]))
  {
    hide ToTheLast;
    var n := |ps| - 1;
    assert forall i :: 0 <= i < n ==> ps[..n][i] == ps[i] && idss[..n][i] == idss[i];
  }

  lemma {:induction false} PieceElement(c: Codec, p: Piece, ids: seq<HostId>)
    requires Standard(c) && GoodPiece(c, p) && PieceDenotes(c, p, ids)
    ensures p.Blank? ==> ids == []
    ensures p.Item? ==>
              var e := Parser(c)(TextOf(p.w));
              Expand(e) == ids && !e.Invalid? && !e.Undefined? && (Endless(e) <==> ToTheLast(p.w, ids))
  {
    hide Standard, Denotes, Expand, Endless, ToTheLast, ParseElement, WellWritten, TextOf;
    if p.Item? {
      Denoted(c, p.w);
      WrittenElement(c, p.w);
      DenotesOne(c, p.w, ids, Expand(ParseElement(c, TextOf(p.w))));
    }
  }

  lemma {:induction false} PiecesOfText(c: Codec, ps: seq<Piece>, seps: string)
    requires Standard(c) && GoodPieces(c, ps) && |ps| == |seps| + 1 && Separators(seps)
    ensures Elements(Parser(c), HostPieces(Separated(Texts(ps), seps))) == Elements(Parser(c), Texts(ps))
  {
    hide Standard, GoodPiece, NewlinesToCommas, Separated, PieceText, Strip, ParseElement;
    var texts := Texts(ps);
    forall i | 0 <= i < |texts|
      ensures ',' !in texts[i] && '\n' !in texts[i]
    {
      PieceStripped(c, ps[i]);
    }
    SeparatedPieces(texts, seps);
    if NewlinesToCommas(Separated(texts, seps)) == "" {
      assert Pieces("", ',') == [""];
      EmptyElement(Parser(c));
    }
  }

  lemma {:induction false} EmptyElement(parse: string -> Element)
    ensures Elements(parse, [""]) == Elements(parse, []) == []
  {
    StripAround("", "", "");
    assert "" + "" + "" == "" && [""][..0] == [];
  }

  /** A hosts string that is written from definitions, with blank pieces and white space
      anywhere and with commas and newlines between them, gives the collection of the hosts
      that they denote, without duplicates; and it is rejected exactly if they are too many
      or a block or range goes to the last address of its family. */
  method NewFromText(c: Codec, ps: seq<Piece>, seps: string, max: nat, ghost idss: seq<seq<HostId>>)
    returns (hosts: Hosts?)
    requires Injective(c) && Standard(c) && GoodPieces(c, ps) && AllDenote(c, ps, idss)
    requires |ps| == |seps| + 1 && Separators(seps)
    requires max == 0 ==> NoneToTheLast(ps, idss)
    ensures hosts != null <==> NoneToTheLast(ps, idss) && (max == 0 || |Flat(idss)| <= max)
    ensures hosts != null ==>
              && fresh(hosts) && fresh(hosts.slots) && hosts.Valid()
              && hosts.Contents() == Deduplicated(c, Plain(Flat(idss)))
              && hosts.count + hosts.duplicated == |Flat(idss)|
  {
    hide Standard, Injective, GoodPieces, AllDenote, NoneToTheLast, Elements, Separated, Endless, Deduplicated;
    hide Plain, AllDefined, AllEnd, Acceptable, Processable;
    PiecesOfText(c, ps, seps);
    PieceElements(c, ps, idss);
    ProcessableText(Elements(Parser(c), Texts(ps)), max);
    hosts := NewWithMax(c, Separated(Texts(ps), seps), max);
  }

  lemma {:induction false} ProcessableText(es: seq<Element>, max: nat)
    requires AllDefined(es) && (max == 0 ==> AllEnd(es))
    ensures Processable(es, max)
    ensures Acceptable(es, max) <==> AllEnd(es) && (max == 0 || |Total(es)| <= max)
  {
    hide Endless, Total;
  }

  /** Exclusion, and allow and deny lists: the table of a written hosts string holds the
      values of the hosts that it denotes. */
  lemma {:induction false} ListedInText(c: Codec, ps: seq<Piece>, seps: string, idss: seq<seq<HostId>>)
    requires Standard(c) && GoodPieces(c, ps) && AllDenote(c, ps, idss)
    requires |ps| == |seps| + 1 && Separators(seps) && NoneToTheLast(ps, idss)
    ensures var text := Separated(Texts(ps), seps);
            && Processable(ElementsOf(c, text), 0)
            && Authorized(c, Some(text)) == Some(Values(c, Flat(idss)))
  {
    hide Standard, GoodPieces, AllDenote, NoneToTheLast, Elements, Separated, Endless, AllDefined, AllEnd;
    hide Acceptable, Processable, Values;
    PiecesOfText(c, ps, seps);
    PieceElements(c, ps, idss);
    ProcessableText(Elements(Parser(c), Texts(ps)), 0);
  }

  // ------------------------------------------------------------- Hexadecimal numbers

  const LOWER_HEX := "0123456789abcdef"
  const UPPER_HEX := "0123456789ABCDEF"

  /** A number in hexadecimal digits. */
  function HexDigits(n: nat, upper: bool): (s: string)
    ensures s != ""
  {
    var last := [(if upper then UPPER_HEX else LOWER_HEX)[n % 16]];
    if n < 16 then last else HexDigits(n / 16, upper) + last
  }

  /** The digits of a number, of either case, denote it. */
  lemma {:induction false} HexRoundTrip(n: nat, upper: bool)
    ensures AllHexDigits(HexDigits(n, upper)) && Hexadecimal(HexDigits(n, upper)) == n
  {
    var s := HexDigits(n, upper);
    HexDigitOf(n % 16, upper);
    if n >= 16 {
      HexRoundTrip(n / 16, upper);
      assert s[..|s| - 1] == HexDigits(n / 16, upper);
    } else {
      assert s[..0] == "";
    }
  }

  lemma {:induction false} HexDigitOf(d: nat, upper: bool)
    requires d < 16
    ensures var ch := (if upper then UPPER_HEX else LOWER_HEX)[d]; IsHexDigit(ch) && HexDigitValue(ch) == d
  {
  }

  // ---------------------------------------------------------------- Printed hosts

  /** Reading undoes printing. */
  ghost predicate ReadsPrinted(c: Codec) {
    && (forall a: addr4 :: c.pton4(c.ntop4(a)) == Some(a))
    && (forall a: addr6 :: c.pton6(c.ntop6(a)) == Some(a))
  }

  /** The printed value of a host is a text that stands for the host. */
  lemma {:induction false} PrintedHost(c: Codec, id: HostId)
    requires Standard(c) && ReadsPrinted(c)
    requires id.Name? ==> WrittenName(c, HostName(id.name)) && Lower(id.name) == id.name
    ensures ParseElement(c, ValueStr(c, id)) == Single(id)
  {
    match id
    case Name(n) => NameRead(c, n);
    case V4(a) => AddressRead(c, c.ntop4(a));
    case V6(a) =>
      OneFamily(c, c.ntop6(a));
      AddressRead(c, c.ntop6(a));
  }
}
