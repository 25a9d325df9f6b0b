/**
 What a list of port ranges means: membership of a port, the flat array of ports, and
 the strings that denote the list.
 */
module PortLists {
  import opened Text
  import opened Ports

  // ------------------------------------------------------------------ Membership

  /** A range of this protocol holds the port. */
  predicate Holds(ranges: seq<Range>, port: int, protocol: Protocol) {
    exists i :: 0 <= i < |ranges| && ranges[i].protocol == protocol && ranges[i].start <= port <= ranges[i].end
  }

  method PortInPortRanges(port: int, protocol: Protocol, ranges: Option<seq<Range>>) returns (found: bool)
    ensures found == (ranges.Some? && 0 <= port <= 65536 && Holds(ranges.value, port, protocol))
  {
    if ranges.None? || port < 0 || port > 65536 {
      return false;
    }
    for i := 0 to |ranges.value|
      invariant !Holds(ranges.value[..i], port, protocol)
    {
      var range := ranges.value[i];
      if range.protocol == protocol && range.start <= port <= range.end {
        return true;
      }
    }
    assert ranges.value[..|ranges.value|] == ranges.value;
    return false;
  }

  // ------------------------------------------------------------------ Flattening

  /** The cast to an unsigned 16-bit integer. */
  function Cast(i: int): (port: nat)
    ensures port <= 65535 && (0 <= i <= 65535 ==> port == i)
  {
    i % 65536
  }

  /** The integers from start up to end, cast. */
  function CastUpTo(start: int, end: int): seq<nat>
    decreases end - start
  {
    if end < start then [] else CastUpTo(start, end - 1) + [Cast(end)]
  }

  /** The ports of one range; the end 0 stands for a single port. */
  function PortsOf(range: Range): seq<nat> {
    if range.exclude then []
    else if range.end == 0 then [Cast(range.start)]
    else CastUpTo(range.start, range.end)
  }

  function Flattened(ranges: seq<Range>): seq<nat> {
    if ranges == [] then [] else Flattened(ranges[..|ranges| - 1]) + PortsOf(ranges[|ranges| - 1])
  }

  /** The growing array of ports. */
  class PortArray {
    var ports: seq<nat>

    constructor ()
      ensures ports == []
    {
      ports := [];
    }

    method Fill(range: Range)
      modifies this
      ensures ports == old(ports) + PortsOf(range)
    {
      if range.exclude {
        return;
      }
      if range.end == 0 || range.start == range.end {
        assert CastUpTo(range.start, range.start) == [] + [Cast(range.start)];
        ports := ports + [Cast(range.start)];
        return;
      }
      var i := range.start;
      while i <= range.end
        invariant i <= range.end + 1 || (i == range.start && range.end < range.start)
        invariant ports == old(ports) + CastUpTo(range.start, i - 1)
      {
        ports := ports + [Cast(i)];
        i := i + 1;
      }
    }

    method FillAll(ranges: seq<Range>)
      modifies this
      ensures ports == old(ports) + Flattened(ranges)
    {
      for i := 0 to |ranges|
        invariant ports == old(ports) + Flattened(ranges[..i])
      {
        Fill(ranges[i]);
        assert ranges[..i + 1][..i] == ranges[..i];
      }
      assert ranges[..|ranges|] == ranges;
    }
  }

  lemma {:induction false} CastUpToHolds(start: int, end: int, port: int)
    requires 0 <= start && end <= 65535
    ensures port in CastUpTo(start, end) <==> start <= port <= end
    ensures |CastUpTo(start, end)| == if end < start then 0 else end - start + 1
    ensures forall i :: 0 <= i < |CastUpTo(start, end)| ==> CastUpTo(start, end)[i] == start + i
    decreases end - start
  {
    if start <= end {
      CastUpToHolds(start, end - 1, port);
    }
  }

  /** What a range contributes: nothing if it is excluded, one port if its end is 0, and
      otherwise its ports from the first one up. */
  lemma {:induction false} PortsOfRange(range: Range)
    requires 0 <= range.start && range.end <= 65535 && range.start <= 65535
    ensures range.exclude ==> PortsOf(range) == []
    ensures !range.exclude && range.end == 0 ==> PortsOf(range) == [range.start]
    ensures !range.exclude && range.end != 0 ==>
              && |PortsOf(range)| == (if range.end < range.start then 0 else range.end - range.start + 1)
              && forall i :: 0 <= i < |PortsOf(range)| ==> PortsOf(range)[i] == range.start + i
  {
    CastUpToHolds(range.start, range.end, 0);
  }

  /** The ports of the first ranges come first. */
  lemma {:induction false} FlattenedConcat(a: seq<Range>, b: seq<Range>)
    ensures Flattened(a + b) == Flattened(a) + Flattened(b) && (|b| == 1 ==> Flattened(b) == PortsOf(b[0]))
  {
    hide PortsOf;
    if b == [] {
      assert a + b == a && Flattened(a) + [] == Flattened(a);
    } else {
      var n := |b| - 1;
      FlattenedConcat(a, b[..n]);
      assert (a + b)[..|a + b| - 1] == a + b[..n] && (a + b)[|a + b| - 1] == b[n];
      assert n == 0 ==> b[..n] == [] && [] + PortsOf(b[0]) == PortsOf(b[0]);
    }
  }

  /** The number of ports in a list of ranges, counted with repetition. */
  function TotalSize(ranges: seq<Range>): int {
    if ranges == [] then 0
    else TotalSize(ranges[..|ranges| - 1]) + ranges[|ranges| - 1].end - ranges[|ranges| - 1].start + 1
  }

  predicate AllPortRanges(ranges: seq<Range>) {
    forall i :: 0 <= i < |ranges| ==> PortRange(ranges[i])
  }

  /** The flat array of port ranges holds what the ranges hold. */
  lemma {:induction false} FlattenedHolds(ranges: seq<Range>, port: int)
    requires AllPortRanges(ranges)
    ensures port in Flattened(ranges) <==> Holds(ranges, port, Tcp) || Holds(ranges, port, Udp)
    ensures |Flattened(ranges)| == TotalSize(ranges)
  {
    if ranges != [] {
      var front, last := ranges[..|ranges| - 1], ranges[|ranges| - 1];
      FlattenedHolds(front, port);
      CastUpToHolds(last.start, last.end, port);
      HoldsFront(ranges, port, Tcp);
      HoldsFront(ranges, port, Udp);
    }
  }

  lemma {:induction false} HoldsFront(ranges: seq<Range>, port: int, protocol: Protocol)
    requires ranges != []
    ensures var last := ranges[|ranges| - 1];
            Holds(ranges, port, protocol) <==>
            || Holds(ranges[..|ranges| - 1], port, protocol)
            || (last.protocol == protocol && last.start <= port <= last.end)
  {
    var front := ranges[..|ranges| - 1];
    if Holds(ranges, port, protocol) {
      var i :| 0 <= i < |ranges| && ranges[i].protocol == protocol && ranges[i].start <= port <= ranges[i].end;
      assert i < |front| ==> front[i] == ranges[i];
    }
    if Holds(front, port, protocol) {
      var i :| 0 <= i < |front| && front[i].protocol == protocol && front[i].start <= port <= front[i].end;
      assert front[i] == ranges[i];
    }
  }

  /** What the ranges of an accepted string are. */
  function RangesOfString(s: string): seq<Range> {
    RangesOf(Tokens(PortPieces(s)))
  }

  lemma {:induction false} AllPortsGiveRanges(ts: seq<Token>)
    requires AllPorts(ts)
    ensures AllPortRanges(RangesOf(ts))
  {
    forall i | 0 <= i < |RangesOf(ts)|
      ensures PortRange(RangesOf(ts)[i])
    {
      TokenRanges(ts, i);
    }
  }

  /** For an accepted string, a port is in the flat array if and only if the membership
      test finds it for one of the protocols, and the array has as many ports as the
      intervals together. */
  lemma {:induction false} ArrayAgreesWithRanges(s: string, port: int)
    requires Accepted(s)
    ensures var ranges := RangesOfString(s);
            && (port in Flattened(ranges) <==>
                0 <= port <= 65536 && (Holds(ranges, port, Tcp) || Holds(ranges, port, Udp)))
            && |Flattened(ranges)| == TotalSize(ranges)
  {
    hide Accepted, Tokens, PortPieces;
    AcceptedTokens(s);
    AllPortsGiveRanges(Tokens(PortPieces(s)));
    FlattenedHolds(RangesOfString(s), port);
    HeldPort(RangesOfString(s), port);
  }

  lemma {:induction false} HeldPort(ranges: seq<Range>, port: int)
    requires AllPortRanges(ranges)
    ensures Holds(ranges, port, Tcp) || Holds(ranges, port, Udp) ==> 1 <= port <= 65535
  {
  }

  // -------------------------------------------------------------- Writing ranges

  function IntervalText(a: string, b: string): string {
    a + "-" + b
  }

  function Written(mark: char, a: string, b: string): string {
    [mark, ':'] + IntervalText(a, b)
  }

  /** A range as an element of a port range string. */
  function WrittenRange(r: Range): string
    requires PortRange(r)
  {
    Written(if r.protocol == Tcp then 'T' else 'U', Digits(r.start), Digits(r.end))
  }

  function WrittenAll(ranges: seq<Range>): (r: seq<string>)
    requires AllPortRanges(ranges)
    ensures |r| == |ranges|
  {
    seq(|ranges|, i requires 0 <= i < |ranges| => WrittenRange(ranges[i]))
  }

  /** A string that denotes the ranges. */
  function PortRangeString(ranges: seq<Range>): string
    requires AllPortRanges(ranges)
  {
    Join(WrittenAll(ranges), ",")
  }

  lemma {:induction false} BlanklessStart(s: string)
    requires s == "" || !IsBlank(s[0])
    ensures Blankless(s) == s
  {
    assert BlankRun(s) == 0;
  }

  predicate NonEmptyDigits(s: string) {
    s != "" && AllDigits(s)
  }

  lemma {:induction false} IntervalParts(a: string, b: string)
    requires NonEmptyDigits(a) && NonEmptyDigits(b)
    ensures var s := IntervalText(a, b);
            && Find(s, '-') == |a| && s == a + ("-" + b) && s[..|a|] == a && s[|a| + 1..] == b
            && s[|a|..] == "-" + b && Blankless(s) == s && Blankless(b) == b && s[0] != '-'
  {
    var s := IntervalText(a, b);
    FindUnique(s, '-', |a|);
    BlanklessStart(s);
    BlanklessStart(b);
  }

  /** The validator accepts two numbers in order with a hyphen between them. */
  lemma {:induction false} IntervalAccepted(a: string, b: string, x: int, y: int)
    requires NonEmptyDigits(a) && NonEmptyDigits(b) && 1 <= x <= y <= 65535
    requires Strtol(a + ("-" + b)) == Number(x, |a|, false) && Strtol(b) == Number(y, |b|, false)
    ensures BodyValid(IntervalText(a, b))
  {
    hide Strtol, Blankless, IntervalText;
    IntervalParts(a, b);
    BlanklessStart("-" + b);
    BlanklessStart("");
    assert b[|b|..] == "";
  }

  /** The validator accepts a written interval and the parser reads it back. */
  lemma {:induction false} IntervalReadBack(x: nat, y: nat)
    requires 1 <= x <= y <= 65535
    ensures var s := IntervalText(Digits(x), Digits(y));
            BodyValid(s) && ReadBody(s) == Interval(x, y)
  {
    hide Strtol, Blankless, Digits, BodyValid, IntervalText;
    var a, b := Digits(x), Digits(y);
    DigitsAreDigits(x);
    DigitsAreDigits(y);
    IntervalParts(a, b);
    assert a + "" == a && b + "" == b;
    StrtolOfDigits(x, "-" + b);
    StrtolOfDigits(x, "");
    StrtolOfDigits(y, "");
    IntervalAccepted(a, b, x, y);
  }

  /** A written range has no separator in it and no white space around it. */
  lemma {:induction false} WrittenPlain(mark: char, a: string, b: string)
    requires NonEmptyDigits(a) && NonEmptyDigits(b) && (mark == 'T' || mark == 'U')
    ensures var w := Written(mark, a, b);
            && ',' !in w && '\n' !in w && Stripped(w) && |w| > 2
            && w[0] == mark && w[1..] == ":" + IntervalText(a, b)
  {
    var w := Written(mark, a, b);
    assert w[|w| - 1] == b[|b| - 1];
  }

  lemma {:induction false} MarkerSplit(mark: char, s: string)
    requires mark == 'T' || mark == 'U'
    ensures SplitMarker([mark] + (":" + s)) == Marked(Some(if mark == 'T' then Tcp else Udp), s)
  {
    hide Blankless;
    BlanklessStart(":" + s);
    assert ([mark] + (":" + s))[1..] == ":" + s && (":" + s)[1..] == s;
  }

  lemma {:induction false} WrittenToken(r: Range)
    requires PortRange(r)
    ensures BodyValid(Body(WrittenRange(r)))
    ensures TokenOf(WrittenRange(r)) == Token(Some(r.protocol), Interval(r.start, r.end))
  {
    hide BodyValid, ReadBody, SplitMarker, IntervalText, Digits, Strip;
    var a, b, mark := Digits(r.start), Digits(r.end), if r.protocol == Tcp then 'T' else 'U';
    var w := WrittenRange(r);
    DigitsAreDigits(r.start);
    DigitsAreDigits(r.end);
    WrittenPlain(mark, a, b);
    StripStripped(w);
    assert w == [mark] + (":" + IntervalText(a, b));
    MarkerSplit(mark, IntervalText(a, b));
    IntervalReadBack(r.start, r.end);
  }

  lemma {:induction false} JoinWithout(pieces: seq<string>, c: char)
    requires c != ',' && forall i :: 0 <= i < |pieces| ==> c !in pieces[i]
    ensures c !in Join(pieces, ",")
    ensures pieces != [] && pieces[0] != "" ==> Join(pieces, ",") != "" && Join(pieces, ",")[0] == pieces[0][0]
  {
    if |pieces| > 1 {
      JoinWithout(pieces[1..], c);
    }
  }

  /** Elements joined with commas are split into the same elements. */
  lemma {:induction false} PiecesReadBack(pieces: seq<string>)
    requires pieces != [] && pieces[0] != "" && !IsBlank(pieces[0][0])
    requires forall i :: 0 <= i < |pieces| ==> ',' !in pieces[i] && '\n' !in pieces[i]
    ensures PortPieces(Join(pieces, ",")) == pieces && Blankless(Join(pieces, ",")) != ""
  {
    hide BlankRun, Pieces, Join, NewlinesToCommas;
    var s := Join(pieces, ",");
    JoinWithout(pieces, '\n');
    BlanklessStart(s);
    NoNewlines(s);
    PiecesOfJoin(pieces, ',');
  }

  /** The pieces of the string are the written ranges. */
  lemma {:induction false} WrittenPieces(ranges: seq<Range>)
    requires AllPortRanges(ranges) && ranges != []
    ensures var s := PortRangeString(ranges);
            PortPieces(s) == WrittenAll(ranges) && Blankless(s) != ""
  {
    hide Written, Blankless, PortPieces, Digits, Join;
    var pieces := WrittenAll(ranges);
    forall i | 0 <= i < |pieces|
      ensures ',' !in pieces[i] && '\n' !in pieces[i]
      ensures pieces[i] != "" && !IsBlank(pieces[i][0])
    {
      DigitsAreDigits(ranges[i].start);
      DigitsAreDigits(ranges[i].end);
      WrittenPlain(if ranges[i].protocol == Tcp then 'T' else 'U', Digits(ranges[i].start), Digits(ranges[i].end));
    }
    PiecesReadBack(pieces);
  }

  lemma {:induction false} RangesOfTokens(ranges: seq<Range>, ts: seq<Token>)
    requires |ts| == |ranges| && AllPortRanges(ranges)
    requires forall i :: 0 <= i < |ts| ==>
               ts[i] == Token(Some(ranges[i].protocol), Interval(ranges[i].start, ranges[i].end))
    ensures RangesOf(ts) == ranges
  {
    if ts != [] {
      RangesOfTokens(ranges[..|ts| - 1], ts[..|ts| - 1]);
      assert ranges == ranges[..|ts| - 1] + [ranges[|ts| - 1]];
    }
  }

  /** Every non-empty list of port ranges is denoted by a string: writing the ranges and
      parsing the string gives them back, with their order and their protocols. */
  lemma {:induction false} WriteThenParse(ranges: seq<Range>)
    requires AllPortRanges(ranges) && ranges != []
    ensures Accepted(PortRangeString(ranges))
    ensures RangesOfString(PortRangeString(ranges)) == ranges
  {
    hide Blankless, PortPieces, BodyValid, Body, TokenOf, WrittenRange, PortRangeString;
    var pieces := WrittenAll(ranges);
    WrittenPieces(ranges);
    forall i | 0 <= i < |pieces|
      ensures BodyValid(Body(pieces[i]))
      ensures Tokens(pieces)[i] == Token(Some(ranges[i].protocol), Interval(ranges[i].start, ranges[i].end))
    {
      WrittenToken(ranges[i]);
    }
    RangesOfTokens(ranges, Tokens(pieces));
  }
}
