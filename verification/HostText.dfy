/**
 The elements of a hosts string: which host definition an element is, and which
 hosts it stands for.
 */
module HostText {
  import opened Address
  import opened Text
  import opened Dedup

  /** What one element of a hosts string denotes. `Undefined` is a block whose prefix
      length is read as zero after having been accepted as positive. */
  datatype Element =
    | Invalid
    | Undefined
    | Single(id: HostId)
    | Range4(first4: addr4, last4: addr4)
    | Range6(first6: addr6, last6: addr6)

  /** A decimal number of at most `max` that makes up the whole string. */
  predicate IsNumberUpTo(s: string, max: nat) {
    && s != "" && IsDigit(s[0])
    && Strtol(s).used == |s| && 0 <= Strtol(s).value <= max
  }

  lemma {:induction false} NumberIsDecimal(s: string, max: nat)
    requires max < LONG_MAX
    ensures IsNumberUpTo(s, max) <==> s != "" && AllDigits(s) && Decimal(s) <= max
  {
    if s != "" && IsDigit(s[0]) {
      StrtolOfDigit(s);
      DigitRunIsDigits(s);
      if DigitRun(s) == |s| {
        assert s[..|s|] == s;
      }
    }
  }

  /** The number sscanf reads with "%<width>u" from a string of digits. */
  function ScanNumber(s: string, width: nat): nat {
    Decimal(s[..if width < |s| then width else |s|])
  }

  // ---------------------------------------- The prefix length is read two times

  /** Dropping the last digits of a number divides it. */
  lemma {:induction false} DecimalFront(s: string, k: nat)
    requires k <= |s|
    ensures Decimal(s[..k]) <= Decimal(s)
    ensures k < |s| ==> 10 * Decimal(s[..k]) <= Decimal(s)
    decreases |s|
  {
    if k < |s| {
      var t := s[..|s| - 1];
      DecimalFront(t, k);
      assert t[..k] == s[..k];
    } else {
      assert s[..k] == s;
    }
  }

  /** The validation reads the whole prefix length with strtol, the extraction at most
      `width` of its digits with sscanf: they read the same number exactly when the
      prefix length is written with at most `width` digits. */
  lemma {:induction false} PrefixLengthReadsAgree(s: string, max: nat, width: nat)
    requires 0 < max < LONG_MAX && IsNumberUpTo(s, max) && Strtol(s).value > 0
    ensures AllDigits(s) && (ScanNumber(s, width) == Strtol(s).value <==> |s| <= width)
  {
    NumberIsDecimal(s, max);
    StrtolOfDigit(s);
    assert s[..|s|] == s;
    if |s| > width {
      DecimalFront(s, width);
    }
  }

  lemma {:induction false} DecimalNext(s: string, c: char)
    ensures Decimal(s + [c]) == 10 * Decimal(s) + DigitValue(c) && Decimal("") == 0
  {
    assert (s + [c])[..|s|] == s;
  }

  lemma {:induction false} DecimalOf024()
    ensures Decimal("024") == 24 && Decimal("02") == 2
  {
    DecimalNext("", '0');
    DecimalNext("0", '2');
    DecimalNext("02", '4');
    assert "" + ['0'] == "0" && "0" + ['2'] == "02" && "02" + ['4'] == "024";
  }

  /** The two readings can differ: of "024" the extraction reads 2. */
  lemma {:induction false} PrefixDigitsLost()
    ensures IsNumberUpTo("024", 30) && Strtol("024").value == 24 && ScanNumber("024", 2) == 2
  {
    hide Decimal, Strtol;
    var s := "024";
    DecimalOf024();
    assert AllDigits(s) && s + "" == s && s[..3] == s && s[..2] == "02";
    NumberIsDecimal(s, 30);
    StrtolOfDigit(s);
    DigitRunOf(s, "");
  }

  predicate Zeros(s: string) {
    forall i :: 0 <= i < |s| ==> s[i] == '0'
  }

  lemma {:induction false} DecimalZero(s: string)
    requires AllDigits(s)
    ensures Decimal(s) == 0 <==> Zeros(s)
  {
    if s != "" {
      DecimalZero(s[..|s| - 1]);
      assert s == s[..|s| - 1] + [s[|s| - 1]];
    }
  }

  /** A prefix length that is accepted as positive is read as zero exactly when it is
      written with more than `width` digits, the first of which are zeros. */
  lemma {:induction false} PrefixLengthReadAsZero(s: string, max: nat, width: nat)
    requires 0 < max < LONG_MAX && IsNumberUpTo(s, max) && Strtol(s).value > 0
    ensures ScanNumber(s, width) == 0 <==> |s| > width && Zeros(s[..width])
  {
    PrefixLengthReadsAgree(s, max, width);
    if |s| > width {
      DecimalZero(s[..width]);
    }
  }

  // -------------------------------------------------------- The element grammar

  /** An IPv4 address, a slash and a prefix length from 1 to 30. */
  predicate IsCidr4(c: Codec, s: string) {
    var i := Find(s, '/');
    && i < |s| && c.pton4(s[..i]).Some?
    && IsNumberUpTo(s[i + 1..], 30) && Strtol(s[i + 1..]).value > 0
  }

  predicate IsShortRange4(c: Codec, s: string) {
    var i := Find(s, '-');
    i < |s| && c.pton4(s[..i]).Some? && IsNumberUpTo(s[i + 1..], 255)
  }

  predicate IsLongRange4(c: Codec, s: string) {
    var i := Find(s, '-');
    i < |s| && c.pton4(s[..i]).Some? && c.pton4(s[i + 1..]).Some?
  }

  /** An IPv6 address, a slash and a prefix length from 1 to 128. */
  predicate IsCidr6(c: Codec, s: string) {
    var i := Find(s, '/');
    && i < |s| && c.pton6(s[..i]).Some?
    && IsNumberUpTo(s[i + 1..], 128) && Strtol(s[i + 1..]).value > 0
  }

  predicate AllHexDigits(s: string) {
    forall k :: 0 <= k < |s| ==> IsHexDigit(s[k])
  }

  /** An IPv6 address, a hyphen and one to four hexadecimal digits. */
  predicate IsShortRange6(c: Codec, s: string) {
    var i := Find(s, '-');
    && i < |s| && c.pton6(s[..i]).Some?
    && 1 <= |s[i + 1..]| <= 4 && AllHexDigits(s[i + 1..])
  }

  predicate IsLongRange6(c: Codec, s: string) {
    var i := Find(s, '-');
    i < |s| && c.pton6(s[..i]).Some? && c.pton6(s[i + 1..]).Some?
  }

  function HexDigitValue(c: char): (d: nat)
    requires IsHexDigit(c)
    ensures d <= 15
  {
    if IsDigit(c) then (c - '0') as int
    else if 'a' <= c <= 'f' then 10 + (c - 'a') as int
    else 10 + (c - 'A') as int
  }

  function Pow16(n: nat): nat {
    if n == 0 then 1 else 16 * Pow16(n - 1)
  }

  function Hexadecimal(s: string): (n: nat)
    requires AllHexDigits(s)
    ensures n < Pow16(|s|)
  {
    if s == "" then 0 else 16 * Hexadecimal(s[..|s| - 1]) + HexDigitValue(s[|s| - 1])
  }

  lemma {:induction false} FourHexDigits(s: string)
    requires |s| <= 4 && AllHexDigits(s)
    ensures Hexadecimal(s) <= 0xffff
  {
    assert Pow16(1) == 16 && Pow16(2) == 256 && Pow16(3) == 16 * Pow16(2) && Pow16(4) == 16 * Pow16(3);
  }

  /** The block of an IPv4 address with a prefix length of `digits`. */
  function Block4(a: addr4, digits: string): Element
    requires IsNumberUpTo(digits, 30)
  {
    NumberIsDecimal(digits, 30);
    var block := ScanNumber(digits, 2);
    DecimalFront(digits, if 2 < |digits| then 2 else |digits|);
    if block == 0 then Undefined
    else var r := Cidr4BlockIps(a, block); Range4(r.0, r.1)
  }

  /** The usable addresses of an IPv6 block. */
  function Block6(a: addr6, digits: string): Element
    requires IsNumberUpTo(digits, 128)
  {
    NumberIsDecimal(digits, 128);
    var block := ScanNumber(digits, 3);
    DecimalFront(digits, if 3 < |digits| then 3 else |digits|);
    if block == 0 then Undefined
    else Range6(Cidr6First(a, block), Cidr6Last(a, block))
  }

  /** The range of an IPv6 address to the last 16-bit group `hex`. */
  function Short6(a: addr6, hex: string): Element
    requires |hex| <= 4 && AllHexDigits(hex)
  {
    FourHexDigits(hex);
    Range6(a, ShortRange6Last(a, Hexadecimal(hex)))
  }

  /** gvm_get_host_type and the functions that extract the addresses, in the order in
      which the kinds of definitions are tried. */
  function ParseElement(c: Codec, s: string): Element {
    var slash, hyphen := Find(s, '/'), Find(s, '-');
    if s == "" then Invalid
    else if c.pton4(s).Some? then Single(V4(c.pton4(s).value))
    else if c.pton6(s).Some? then Single(V6(c.pton6(s).value))
    else if IsCidr4(c, s) then Block4(c.pton4(s[..slash]).value, s[slash + 1..])
    else if IsShortRange4(c, s) then
      var a := c.pton4(s[..hyphen]).value;
      Range4(a, ShortRange4Last(a, Strtol(s[hyphen + 1..]).value))
    else if IsLongRange4(c, s) then Range4(c.pton4(s[..hyphen]).value, c.pton4(s[hyphen + 1..]).value)
    else if IsCidr6(c, s) then Block6(c.pton6(s[..slash]).value, s[slash + 1..])
    else if IsShortRange6(c, s) then
      Short6(c.pton6(s[..hyphen]).value, s[hyphen + 1..])
    else if IsLongRange6(c, s) then Range6(c.pton6(s[..hyphen]).value, c.pton6(s[hyphen + 1..]).value)
    else if c.isHostname(s) then Single(Name(Lower(s)))
    else Invalid
  }

  lemma {:induction false} ZerosBeforeOne(zeros: string, width: nat)
    requires Zeros(zeros) && |zeros| == width > 0
    ensures var d := zeros + "1";
            && IsNumberUpTo(d, 30) && IsNumberUpTo(d, 128) && Strtol(d).value == 1
            && |d| > width && Zeros(d[..width])
  {
    hide Strtol;
    var d := zeros + "1";
    assert d[..width] == zeros && AllDigits(d);
    DecimalZero(zeros);
    assert Decimal(d) == 1;
    NumberIsDecimal(d, 30);
    NumberIsDecimal(d, 128);
    StrtolOfDigit(d);
    assert "1" + "" == "1" && d + "" == d;
    DigitRunOf(d, "");
    assert d[..|d|] == d;
  }

  /** Every IPv4 address with the prefix length 001 is such a block, and every IPv6
      address with 0001. */
  lemma {:induction false} ZeroBlocks(c: Codec, a: string)
    requires '/' !in a && '-' !in a
    ensures c.pton4(a).Some? && c.pton4(a + "/001").None? && c.pton6(a + "/001").None? ==>
              ParseElement(c, a + "/001").Undefined?
    ensures c.pton4(a).None? && c.pton6(a).Some? && c.pton4(a + "/0001").None? && c.pton6(a + "/0001").None? ==>
              ParseElement(c, a + "/0001").Undefined?
  {
    hide ParseElement, IsNumberUpTo, Strtol, Zeros;
    ZeroText(c, a, "00");
    ZeroText(c, a, "000");
    assert a + "/" + ("00" + "1") == a + "/001" && a + "/" + ("000" + "1") == a + "/0001";
    UndefinedText(c, a + "/001");
    UndefinedText(c, a + "/0001");
  }

  lemma {:induction false} ZeroText(c: Codec, a: string, zeros: string)
    requires '/' !in a && '-' !in a && (zeros == "00" || zeros == "000")
    ensures var s := a + "/" + (zeros + "1");
            && (zeros == "00" && c.pton4(a).Some? && c.pton4(s).None? && c.pton6(s).None? ==> IsZeroBlock(c, s))
            && (zeros == "000" && c.pton4(a).None? && c.pton6(a).Some? && c.pton4(s).None? && c.pton6(s).None? ==>
                  IsZeroBlock(c, s))
  {
    hide IsNumberUpTo, Strtol, Hexadecimal;
    var d := zeros + "1";
    var s := a + "/" + d;
    ZerosBeforeOne(zeros, |zeros|);
    FindUnique(s, '/', |a|);
    FindUnique(s, '-', |s|);
    assert s[..|a|] == a && s[|a| + 1..] == d;
  }

  /** The text of a block whose prefix length is written with three or more digits, of
      which the first two are zeros, for IPv4, or four or more of which three are, for
      IPv6. */
  predicate IsZeroBlock(c: Codec, s: string) {
    var digits := s[if Find(s, '/') < |s| then Find(s, '/') + 1 else |s|..];
    && s != "" && c.pton4(s).None? && c.pton6(s).None?
    && if IsCidr4(c, s) then |digits| > 2 && Zeros(digits[..2])
       else
         && !IsShortRange4(c, s) && !IsLongRange4(c, s)
         && IsCidr6(c, s) && |digits| > 3 && Zeros(digits[..3])
  }

  lemma {:induction false} ZeroBlock4(a: addr4, digits: string)
    requires IsNumberUpTo(digits, 30) && Strtol(digits).value > 0
    ensures Block4(a, digits).Undefined? <==> |digits| > 2 && Zeros(digits[..2])
  {
    hide IsNumberUpTo, Strtol, ScanNumber, Zeros;
    PrefixLengthReadAsZero(digits, 30, 2);
  }

  lemma {:induction false} ZeroBlock6(a: addr6, digits: string)
    requires IsNumberUpTo(digits, 128) && Strtol(digits).value > 0
    ensures Block6(a, digits).Undefined? <==> |digits| > 3 && Zeros(digits[..3])
  {
    hide IsNumberUpTo, Strtol, ScanNumber, Zeros;
    PrefixLengthReadAsZero(digits, 128, 3);
  }

  /** Which texts the functions that extract addresses leave undefined. */
  lemma {:induction false} UndefinedText(c: Codec, s: string)
    ensures ParseElement(c, s).Undefined? <==> IsZeroBlock(c, s)
  {
    hide Block4, Block6, Zeros, IsNumberUpTo, Strtol, Hexadecimal, ShortRange4Last, ShortRange6Last;
    var slash := Find(s, '/');
    if IsCidr4(c, s) {
      ZeroBlock4(c.pton4(s[..slash]).value, s[slash + 1..]);
    }
    if IsCidr6(c, s) {
      ZeroBlock6(c.pton6(s[..slash]).value, s[slash + 1..]);
    }
  }
}
