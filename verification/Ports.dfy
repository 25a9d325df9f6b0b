/**
 The port range language: its validator, its parser, the membership test and the
 flattening into a list of ports.
 */
module Ports {
  import opened Text

  datatype Protocol = Tcp | Udp
  datatype Range = Range(start: int, end: int, protocol: Protocol, exclude: bool)

  // --------------------------------------------------------- Meaning of elements

  /** How many blanks are at the front of s. */
  function BlankRun(s: string): (n: nat)
    ensures n <= |s|
  {
    if s != "" && IsBlank(s[0]) then 1 + BlankRun(s[1..]) else 0
  }

  lemma {:induction false} BlankRunIsBlank(s: string)
    ensures forall k :: 0 <= k < BlankRun(s) ==> IsBlank(s[k])
    ensures BlankRun(s) < |s| ==> !IsBlank(s[BlankRun(s)])
  {
    if s != "" && IsBlank(s[0]) {
      BlankRunIsBlank(s[1..]);
    }
  }

  /** The string without the blanks at its front. */
  function Blankless(s: string): string {
    s[BlankRun(s)..]
  }

  /** A type specifier in front of an element, and what follows it. */
  datatype Marked = Marked(protocol: Option<Protocol>, body: string)

  function SplitMarker(e: string): Marked {
    if |e| >= 2 && (e[0] == 'T' || e[0] == 'U') then
      var r := Blankless(e[1..]);
      if r != "" && r[0] == ':' then Marked(Some(if e[0] == 'T' then Tcp else Udp), r[1..])
      else Marked(None, r)
    else Marked(None, e)
  }

  /** What follows the number at the front of s, without blanks. */
  function AfterNumber(s: string): string {
    Blankless(s[Strtol(s).used..])
  }

  /** The number at the front of s is a port. */
  predicate StartsWithPort(s: string) {
    !Strtol(s).erange && Strtol(s).value != 0 && Strtol(s).value <= 65535
  }

  /** Nothing but a port. */
  predicate IsPort(s: string) {
    AfterNumber(s) == "" && StartsWithPort(s)
  }

  /** The checks on the part from the first number and the part behind the hyphen. */
  predicate IsInterval(first: string, second: string) {
    && first != "" && first[0] != '-' && StartsWithPort(first)
    && AfterNumber(first) != "" && AfterNumber(first)[0] == '-'
    && second != "" && IsPort(second)
    && Strtol(first).value <= Strtol(second).value
  }

  /** The checks of the validator on an element without its type specifier. */
  predicate BodyValid(b: string) {
    var h := Find(b, '-');
    if h < |b| then IsInterval(Blankless(b), Blankless(b[h + 1..]))
    else Blankless(b) == "" || IsPort(Blankless(b))
  }

  /** What the parser reads from an element without its type specifier. */
  datatype Reading = Nothing | Interval(start: int, end: int)

  function ReadBody(b: string): Reading {
    ReadStripped(Blankless(b))
  }

  function ReadStripped(s: string): Reading {
    var h := Find(s, '-');
    if h < |s| then Interval(Strtol(s[..h]).value, Strtol(Blankless(s[h + 1..])).value)
    else if s != "" then Interval(Strtol(s).value, Strtol(s).value)
    else Nothing
  }

  // --------------------------------------------------- The readings of a number

  lemma {:induction false} DigitRunPrefix(s: string, k: nat)
    requires DigitRun(s) <= k <= |s|
    ensures DigitRun(s[..k]) == DigitRun(s)
  {
    if s != "" && IsDigit(s[0]) {
      DigitRunPrefix(s[1..], k - 1);
      assert s[..k][1..] == s[1..][..k - 1];
    }
  }

  lemma {:induction false} SkipAllSpacePrefix(s: string, k: nat)
    requires SkipAllSpace(s) < k <= |s|
    ensures SkipAllSpace(s[..k]) == SkipAllSpace(s)
  {
    if s != "" && IsSpace(s[0]) {
      SkipAllSpacePrefix(s[1..], k - 1);
      assert s[..k][1..] == s[1..][..k - 1];
    }
  }

  lemma {:induction false} SignEndPrefix(s: string, k: nat)
    requires SignEnd(s) < k <= |s|
    ensures SignEnd(s[..k]) == SignEnd(s)
  {
    SkipAllSpacePrefix(s, k);
  }

  lemma {:induction false} FromDigitsPrefix(d: string, negative: bool, offset: nat, k: nat)
    requires DigitRun(d) <= k <= |d|
    ensures FromDigits(d[..k], negative, offset) == FromDigits(d, negative, offset)
  {
    DigitRunPrefix(d, k);
    assert d[..k][..DigitRun(d)] == d[..DigitRun(d)];
  }

  /** Cutting a string behind the number it starts with does not change the number. */
  lemma {:induction false} StrtolPrefix(s: string, k: nat)
    requires 0 < Strtol(s).used <= k <= |s|
    ensures Strtol(s[..k]) == Strtol(s)
  {
    hide Decimal, SkipAllSpace;
    var j := SignEnd(s);
    SignEndPrefix(s, k);
    assert s[..k][j..] == s[j..][..k - j];
    FromDigitsPrefix(s[j..], j > 0 && s[j - 1] == '-', j, k - j);
  }

  /** Where a number with a minus sign has its sign and digits. */
  lemma {:induction false} NegativeShape(s: string)
    requires Strtol(s).value < 0
    ensures var j := SignEnd(s);
            && j > 0 && s[j - 1] == '-' && (forall k :: 0 <= k < j - 1 ==> s[k] != '-')
            && 0 < DigitRun(s[j..]) && Strtol(s).used == j + DigitRun(s[j..])
  {
    SkipAllSpaceSkipsSpace(s);
  }

  /** A positive number is read over no hyphen. */
  lemma {:induction false} PositiveShape(s: string)
    requires Strtol(s).value > 0
    ensures 0 < Strtol(s).used && forall k :: 0 <= k < Strtol(s).used ==> s[k] != '-'
  {
    SkipAllSpaceSkipsSpace(s);
    var j := SignEnd(s);
    var d := s[j..];
    DigitRunIsDigits(d);
    forall k | 0 <= k < Strtol(s).used
      ensures s[k] != '-'
    {
      if k >= j {
        assert s[k] == d[k - j];
      }
    }
  }

  /** Behind a minus sign, the same digits are read again. */
  lemma {:induction false} NegativeDigits(s: string)
    requires Strtol(s).value < 0
    ensures var d := s[SignEnd(s)..];
            && Find(s, '-') == SignEnd(s) - 1
            && d != "" && IsDigit(d[0]) && Blankless(d) == d
            && d[DigitRun(d)..] == s[Strtol(s).used..]
  {
    NegativeShape(s);
    var j := SignEnd(s);
    FindUnique(s, '-', j - 1);
    DigitRunIsDigits(s[j..]);
  }

  lemma {:induction false} NegativeTail(s: string)
    requires Strtol(s).value < 0
    ensures Find(s, '-') < |s| && AfterNumber(Blankless(s[Find(s, '-') + 1..])) == AfterNumber(s)
  {
    NegativeDigits(s);
    var d := s[SignEnd(s)..];
    StrtolOfDigit(d);
    assert s[Find(s, '-') + 1..] == d;
  }

  /** The first number of a valid interval has no minus sign: otherwise its digits were
      also the start of the second number, which must not be followed by a hyphen. */
  lemma {:induction false} FirstIsPositive(s: string)
    requires Find(s, '-') < |s| && IsInterval(s, Blankless(s[Find(s, '-') + 1..]))
    ensures Strtol(s).value > 0
  {
    hide Strtol, Find, BlankRun;
    if Strtol(s).value < 0 {
      NegativeTail(s);
    }
  }

  /** The parser looks for the hyphen behind the blanks, the validator in front. */
  lemma {:induction false} HyphenOfBlankless(b: string)
    ensures var s := Blankless(b);
            && (Find(b, '-') < |b| <==> Find(s, '-') < |s|)
            && (Find(b, '-') < |b| ==> b[Find(b, '-') + 1..] == s[Find(s, '-') + 1..])
  {
    var m, s := BlankRun(b), Blankless(b);
    var h := Find(s, '-');
    BlankRunIsBlank(b);
    FindFirst(s, '-');
    FindUnique(b, '-', m + h);
    if h < |s| {
      assert b[m + h + 1..] == s[h + 1..];
    }
  }

  /** An interval of ports. */
  predicate PortInterval(r: Reading) {
    r.Interval? && 1 <= r.start <= r.end <= 65535
  }

  lemma {:induction false} IntervalReading(s: string)
    requires Find(s, '-') < |s|
    requires IsInterval(s, Blankless(s[Find(s, '-') + 1..]))
    ensures PortInterval(ReadStripped(s)) && ReadStripped(s).start == Strtol(s).value
  {
    hide Strtol, Find, BlankRun;
    FindFirst(s, '-');
    FirstIsPositive(s);
    PositiveShape(s);
    StrtolPrefix(s, Find(s, '-'));
  }

  lemma {:induction false} SingleReading(s: string)
    requires Find(s, '-') == |s| && s != "" && IsPort(s)
    ensures PortInterval(ReadStripped(s))
  {
    FindFirst(s, '-');
    if Strtol(s).value < 0 {
      NegativeShape(s);
    }
  }

  /** The checks, on an element without its type specifier and blanks. */
  predicate StrippedValid(s: string) {
    if Find(s, '-') < |s| then IsInterval(s, Blankless(s[Find(s, '-') + 1..]))
    else s == "" || IsPort(s)
  }

  lemma {:induction false} StrippedReading(s: string)
    requires StrippedValid(s) && s != ""
    ensures PortInterval(ReadStripped(s))
  {
    hide IsInterval, IsPort, ReadStripped, Find, BlankRun;
    if Find(s, '-') < |s| {
      IntervalReading(s);
    } else {
      SingleReading(s);
    }
  }

  /** Of a valid element the parser reads the numbers that the validator checked; it
      reads nothing exactly when there are only blanks; and behind a hyphen there is
      more than blanks, so the assertion of the parser holds. */
  lemma {:induction false} ValidBodyReading(b: string)
    requires BodyValid(b)
    ensures if Blankless(b) == "" then ReadBody(b).Nothing? else PortInterval(ReadBody(b))
    ensures var s := Blankless(b);
            Find(s, '-') < |s| ==> Blankless(s[Find(s, '-') + 1..]) != ""
  {
    hide Strtol, Find, BlankRun, IsPort;
    HyphenOfBlankless(b);
    if Blankless(b) != "" {
      StrippedReading(Blankless(b));
    }
  }

  // ----------------------------------------------------- Meaning of whole strings

  /** The pieces of a port range string, without outer white space. */
  function PortPieces(s: string): seq<string> {
    Split(NewlinesToCommas(Blankless(s)), ',')
  }

  function Body(piece: string): string {
    SplitMarker(Strip(piece)).body
  }

  /** Strings the validator accepts. */
  predicate Accepted(s: string) {
    Blankless(s) != "" && ValidPieces(PortPieces(s))
  }

  predicate ValidPieces(pieces: seq<string>) {
    forall i :: 0 <= i < |pieces| ==> BodyValid(Body(pieces[i]))
  }

  /** What a piece contributes: a type specifier and an interval, both optional. */
  datatype Token = Token(protocol: Option<Protocol>, reading: Reading)

  function TokenOf(piece: string): Token {
    Token(SplitMarker(Strip(piece)).protocol, ReadBody(Body(piece)))
  }

  function Tokens(pieces: seq<string>): (r: seq<Token>)
    ensures |r| == |pieces|
  {
    seq(|pieces|, i requires 0 <= i < |pieces| => TokenOf(pieces[i]))
  }

  /** The protocol of the latest type specifier, or TCP. */
  function LatestMarker(ts: seq<Token>): Protocol {
    if ts == [] then Tcp
    else if ts[|ts| - 1].protocol.Some? then ts[|ts| - 1].protocol.value
    else LatestMarker(ts[..|ts| - 1])
  }

  /** One range for every interval, with the protocol of the latest type specifier. */
  function RangesOf(ts: seq<Token>): seq<Range> {
    if ts == [] then []
    else
      var r := ts[|ts| - 1].reading;
      RangesOf(ts[..|ts| - 1]) + if r.Nothing? then [] else [Range(r.start, r.end, LatestMarker(ts), false)]
  }

  /** The positions of the tokens that have an interval. */
  function Filled(ts: seq<Token>): seq<nat> {
    if ts == [] then []
    else Filled(ts[..|ts| - 1]) + if ts[|ts| - 1].reading.Nothing? then [] else [|ts| - 1]
  }

  /** A range of ports. */
  predicate PortRange(r: Range) {
    1 <= r.start <= r.end <= 65535 && !r.exclude
  }

  /** The positions are those of the intervals, in ascending order. */
  lemma {:induction false} FilledMeaning(ts: seq<Token>, k: nat)
    ensures k in Filled(ts) <==> k < |ts| && ts[k].reading.Interval?
    ensures forall i :: 0 <= i < |Filled(ts)| ==> Filled(ts)[i] < |ts|
    ensures forall i, j :: 0 <= i < j < |Filled(ts)| ==> Filled(ts)[i] < Filled(ts)[j]
  {
    if ts != [] {
      FilledMeaning(ts[..|ts| - 1], k);
    }
  }

  /** The i-th range is that of the i-th interval. */
  lemma {:induction false} RangeAt(ts: seq<Token>, i: nat)
    requires i < |RangesOf(ts)|
    ensures |RangesOf(ts)| == |Filled(ts)| && Filled(ts)[i] < |ts|
    ensures var k := Filled(ts)[i];
            && ts[k].reading.Interval?
            && RangesOf(ts)[i] ==
               Range(ts[k].reading.start, ts[k].reading.end, LatestMarker(ts[..k + 1]), false)
  {
    var front := ts[..|ts| - 1];
    SameCount(ts);
    SameCount(front);
    if i < |RangesOf(front)| {
      RangeAt(front, i);
      assert front[..Filled(front)[i] + 1] == ts[..Filled(front)[i] + 1];
    } else {
      assert ts[..|ts|] == ts;
    }
  }

  lemma {:induction false} SameCount(ts: seq<Token>)
    ensures |RangesOf(ts)| == |Filled(ts)|
  {
    if ts != [] {
      SameCount(ts[..|ts| - 1]);
    }
  }

  /** Every interval is one of ports. */
  predicate AllPorts(ts: seq<Token>) {
    forall k :: 0 <= k < |ts| ==> ts[k].reading.Nothing? || PortInterval(ts[k].reading)
  }

  lemma {:induction false} ValidToken(piece: string)
    requires BodyValid(Body(piece))
    ensures var r := TokenOf(piece).reading; r.Nothing? || PortInterval(r)
  {
    ValidBodyReading(Body(piece));
  }

  /** Every interval of an accepted string is one of ports. */
  lemma {:induction false} AcceptedTokens(s: string)
    requires Accepted(s)
    ensures AllPorts(Tokens(PortPieces(s)))
  {
    var pieces := PortPieces(s);
    forall k | 0 <= k < |pieces|
      ensures var r := Tokens(pieces)[k].reading; r.Nothing? || PortInterval(r)
    {
      ValidToken(pieces[k]);
    }
  }

  /** Every range is a range of ports: the interval of its token with the protocol of
      the latest type specifier. */
  lemma {:induction false} TokenRanges(ts: seq<Token>, i: nat)
    requires AllPorts(ts) && i < |RangesOf(ts)|
    ensures |RangesOf(ts)| == |Filled(ts)| && Filled(ts)[i] < |ts|
    ensures PortRange(RangesOf(ts)[i])
    ensures RangesOf(ts)[i].protocol == LatestMarker(ts[..Filled(ts)[i] + 1])
    ensures ts[Filled(ts)[i]].reading == Interval(RangesOf(ts)[i].start, RangesOf(ts)[i].end)
  {
    RangeAt(ts, i);
  }

  // --------------------------------------------------------- Validator and parser

  /** Skips blanks from position i on. */
  method SkipBlanks(s: string, i: nat) returns (j: nat)
    requires i <= |s|
    ensures i <= j <= |s| && s[j..] == Blankless(s[i..])
  {
    j := i;
    while j < |s| && IsBlank(s[j])
      invariant i <= j <= |s|
      invariant Blankless(s[j..]) == Blankless(s[i..])
    {
      assert s[j..][1..] == s[j + 1..];
      j := j + 1;
    }
    assert BlankRun(s[j..]) == 0;
  }

  /** Skips a type specifier. */
  method SkipMarker(e: string) returns (protocol: Option<Protocol>, body: string)
    ensures Marked(protocol, body) == SplitMarker(e)
  {
    protocol, body := None, e;
    if |e| >= 2 && (e[0] == 'T' || e[0] == 'U') {
      var j := SkipBlanks(e, 1);
      if j < |e| && e[j] == ':' {
        assert e[j..][1..] == e[j + 1..];
        protocol := Some(if e[0] == 'T' then Tcp else Udp);
        j := j + 1;
      }
      body := e[j..];
    }
  }

  /** Checks a string that has to be nothing but a port. */
  method CheckPort(s: string) returns (ok: bool)
    ensures ok == IsPort(s)
  {
    var number := Strtol(s);
    var end := SkipBlanks(s, number.used);
    ok := !number.erange && end == |s| && number.value != 0 && number.value <= 65535;
  }

  /** Checks the first number of an interval: whether a hyphen follows it, and its size. */
  method CheckFirst(s: string) returns (ok: bool)
    ensures ok == (StartsWithPort(s) && AfterNumber(s) != "" && AfterNumber(s)[0] == '-')
  {
    var number := Strtol(s);
    var end := SkipBlanks(s, number.used);
    ok := !number.erange && end < |s| && s[end] == '-' && number.value != 0 && number.value <= 65535;
  }

  /** Checks the part from the first number and the part behind the hyphen. */
  method CheckInterval(first: string, second: string) returns (ok: bool)
    ensures ok == IsInterval(first, second)
  {
    if first == "" || first[0] == '-' {
      return false;
    }
    ok := CheckFirst(first);
    if !ok || second == "" {
      return false;
    }
    ok := CheckPort(second);
    ok := ok && Strtol(first).value <= Strtol(second).value;
  }

  /** Checks one element without its type specifier. */
  method CheckBody(b: string) returns (ok: bool)
    ensures ok == BodyValid(b)
  {
    hide IsInterval, IsPort;
    var hyphen := Find(b, '-');
    var start := SkipBlanks(b, 0);
    assert b[0..] == b;
    if hyphen < |b| {
      var next := SkipBlanks(b, hyphen + 1);
      ok := CheckInterval(b[start..], b[next..]);
    } else if start == |b| {
      ok := true;
    } else {
      ok := CheckPort(b[start..]);
    }
  }

  method CheckPiece(piece: string) returns (ok: bool)
    ensures ok == BodyValid(Body(piece))
  {
    var _, body := SkipMarker(Strip(piece));
    ok := CheckBody(body);
  }

  method CheckPieces(pieces: seq<string>) returns (ok: bool)
    ensures ok == ValidPieces(pieces)
  {
    hide BodyValid, Body;
    ok := true;
    var k := 0;
    while k < |pieces|
      invariant 0 <= k <= |pieces|
      invariant ok == ValidPieces(pieces[..k])
    {
      var valid := CheckPiece(pieces[k]);
      if !valid {
        return false;
      }
      k := k + 1;
    }
    assert pieces[..k] == pieces;
  }

  /** Whether a string is a port range; the result is false for valid strings. */
  method ValidatePortRange(portRange: Option<string>) returns (failed: bool)
    ensures failed == !(portRange.Some? && Accepted(portRange.value))
  {
    if portRange.None? {
      return true;
    }
    var s := portRange.value;
    var start := SkipBlanks(s, 0);
    assert s[0..] == s;
    if start == |s| {
      return true;
    }
    var ok := CheckPieces(Split(NewlinesToCommas(s[start..]), ','));
    return !ok;
  }

  /** Reads an element without its type specifier. The text behind a hyphen is what the
      source asserts to be non-empty. */
  method ReadElement(b: string) returns (reading: Reading)
    requires BodyValid(b)
    ensures reading == ReadBody(b) && (reading.Nothing? || PortInterval(reading))
  {
    ValidBodyReading(b);
    var start := SkipBlanks(b, 0);
    assert b[0..] == b;
    var element := b[start..];
    var hyphen := Find(element, '-');
    if hyphen < |element| {
      var next := SkipBlanks(element, hyphen + 1);
      assert next < |element|;
      reading := Interval(Strtol(element[..hyphen]).value, Strtol(element[next..]).value);
    } else if element != "" {
      reading := Interval(Strtol(element).value, Strtol(element).value);
    } else {
      reading := Nothing;
    }
  }

  /** Reads one piece. */
  method ReadPiece(piece: string) returns (token: Token)
    requires BodyValid(Body(piece))
    ensures token == TokenOf(piece)
  {
    var protocol, body := SkipMarker(Strip(piece));
    var reading := ReadElement(body);
    token := Token(protocol, reading);
  }

  /** One turn of the parser's loop. */
  lemma {:induction false} OneMoreToken(ts: seq<Token>, k: nat)
    requires k < |ts|
    ensures LatestMarker(ts[..k + 1]) ==
            if ts[k].protocol.Some? then ts[k].protocol.value else LatestMarker(ts[..k])
    ensures RangesOf(ts[..k + 1]) == RangesOf(ts[..k]) +
            if ts[k].reading.Interval? then
              [Range(ts[k].reading.start, ts[k].reading.end, LatestMarker(ts[..k + 1]), false)]
            else []
  {
    assert ts[..k + 1][..k] == ts[..k];
  }

  method RangesOfPieces(pieces: seq<string>) returns (ranges: seq<Range>)
    requires ValidPieces(pieces)
    ensures ranges == RangesOf(Tokens(pieces))
  {
    ranges := [];
    var protocol := Tcp;
    var k := 0;
    ghost var ts := Tokens(pieces);
    while k < |pieces|
      invariant 0 <= k <= |pieces|
      invariant protocol == LatestMarker(ts[..k])
      invariant ranges == RangesOf(ts[..k])
    {
      var token := ReadPiece(pieces[k]);
      OneMoreToken(ts, k);
      if token.protocol.Some? {
        protocol := token.protocol.value;
      }
      if token.reading.Interval? {
        ranges := ranges + [Range(token.reading.start, token.reading.end, protocol, false)];
      }
      k := k + 1;
    }
    assert ts[..k] == ts;
  }

  /** The ranges of a port range string. */
  method PortRangeRanges(portRange: Option<string>) returns (ranges: Option<seq<Range>>)
    ensures ranges.Some? <==> portRange.Some? && Accepted(portRange.value)
    ensures ranges.Some? ==> ranges.value == RangesOf(Tokens(PortPieces(portRange.value)))
  {
    var failed := ValidatePortRange(portRange);
    if failed {
      return None;
    }
    var s := portRange.value;
    var start := SkipBlanks(s, 0);
    assert s[0..] == s;
    var result := RangesOfPieces(Split(NewlinesToCommas(s[start..]), ','));
    ranges := Some(result);
  }

  /** Every accepted string has one range for every element that is not blank, in the
      order of the elements; and the range is a range of ports with the bounds that its
      element reads as and the protocol of the latest type specifier up to it. */
  lemma {:induction false} AcceptedRanges(s: string)
    requires Accepted(s)
    ensures var ts := Tokens(PortPieces(s));
            var ranges, elements := RangesOf(ts), Filled(ts);
            && |ranges| == |elements|
            && (forall k :: k in elements <==> 0 <= k < |ts| && Blankless(Body(PortPieces(s)[k])) != "")
            && (forall i, j :: 0 <= i < j < |elements| ==> elements[i] < elements[j])
            && (forall i :: 0 <= i < |ranges| ==> RangeOfElement(ts, elements[i], ranges[i]))
  {
    hide Accepted, Blankless, Body, PortPieces, TokenOf, RangesOf, Filled, AllPorts, RangeOfElement;
    var pieces := PortPieces(s);
    var ts := Tokens(pieces);
    AcceptedTokens(s);
    SameCount(ts);
    FilledMeaning(ts, 0);
    forall k: int
      ensures k in Filled(ts) <==> 0 <= k < |ts| && Blankless(Body(pieces[k])) != ""
    {
      if 0 <= k {
        FilledMeaning(ts, k);
      }
      if 0 <= k < |ts| {
        BlankToken(pieces[k]);
      }
    }
    forall i | 0 <= i < |RangesOf(ts)|
      ensures RangeOfElement(ts, Filled(ts)[i], RangesOf(ts)[i])
    {
      RangeFits(ts, i);
    }
  }

  /** What the range of the k-th element is. */
  predicate RangeOfElement(ts: seq<Token>, k: nat, r: Range) {
    && k < |ts| && PortRange(r) && ts[k].reading == Interval(r.start, r.end)
    && r.protocol == LatestMarker(ts[..k + 1])
  }

  lemma {:induction false} RangeFits(ts: seq<Token>, i: nat)
    requires AllPorts(ts) && i < |RangesOf(ts)|
    ensures |RangesOf(ts)| == |Filled(ts)| && RangeOfElement(ts, Filled(ts)[i], RangesOf(ts)[i])
  {
    hide RangesOf, Filled, AllPorts, LatestMarker;
    TokenRanges(ts, i);
  }

  lemma {:induction false} BlankToken(piece: string)
    ensures TokenOf(piece).reading.Interval? <==> Blankless(Body(piece)) != ""
  {
    hide Strtol, Find, BlankRun, SplitMarker, Strip;
  }
}
