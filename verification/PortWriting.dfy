/**
 The grammar of port range strings: which texts the validator accepts, and what the parser
 makes of them, said from their written parts.
 */
module PortWriting {
  import opened Text
  import opened Ports
  import opened PortLists

  // ---------------------------------------------------------------------- Numbers

  predicate Spaces(s: string) {
    forall i :: 0 <= i < |s| ==> IsSpace(s[i])
  }

  predicate Blanks(s: string) {
    forall i :: 0 <= i < |s| ==> IsBlank(s[i])
  }

  /** A number as it may be written: white space, perhaps a plus sign, digits, blanks. */
  datatype Written = Written(space: string, plus: bool, digits: string, blanks: string)

  function Sign(plus: bool): string {
    if plus then "+" else ""
  }

  function NumberText(n: Written): string {
    n.space + Sign(n.plus) + n.digits + n.blanks
  }

  /** The number is a port, in any number of digits. */
  predicate PortNumber(n: Written) {
    && Spaces(n.space) && Blanks(n.blanks) && n.digits != "" && AllDigits(n.digits)
    && 1 <= Decimal(n.digits) <= 65535
  }

  lemma {:induction false} SkipSpaces(space: string, rest: string)
    requires Spaces(space) && (rest == "" || !IsSpace(rest[0]))
    ensures SkipAllSpace(space + rest) == |space|
  {
    if space == "" {
      assert space + rest == rest;
    } else {
      SkipSpaces(space[1..], rest);
      assert (space + rest)[1..] == space[1..] + rest;
    }
  }

  lemma {:induction false} SignOf(space: string, plus: bool, rest: string)
    requires Spaces(space) && rest != "" && IsDigit(rest[0])
    ensures var s := space + (Sign(plus) + rest);
            && SignEnd(s) == |space| + |Sign(plus)| && s[SignEnd(s)..] == rest
            && !(SignEnd(s) > 0 && s[SignEnd(s) - 1] == '-')
  {
    var s := space + (Sign(plus) + rest);
    SkipSpaces(space, Sign(plus) + rest);
    if plus {
      assert s[|space|] == '+';
    } else {
      assert Sign(plus) + rest == rest && s[|space|] == rest[0];
      assert space != "" ==> s[|space| - 1] == space[|space| - 1];
    }
  }

  /** Reading a number with what follows it. */
  lemma {:induction false} NumberRead(space: string, plus: bool, digits: string, rest: string)
    requires Spaces(space) && digits != "" && AllDigits(digits) && Decimal(digits) <= LONG_MAX
    requires rest == "" || !IsDigit(rest[0])
    ensures Strtol(space + (Sign(plus) + (digits + rest))) ==
            Number(Decimal(digits), |space| + |Sign(plus)| + |digits|, false)
  {
    hide Decimal, DigitRun, SkipAllSpace, SignEnd;
    var d := digits + rest;
    SignOf(space, plus, d);
    DigitRunOf(digits, rest);
    assert d[..|digits|] == digits;
  }

  // -------------------------------------------------------------------- Blank runs

  lemma {:induction false} BlanklessOf(s: string, rest: string)
    requires rest == "" || !IsBlank(rest[0])
    ensures Blankless(s + rest) == Blankless(s) + rest
  {
    if s == "" || !IsBlank(s[0]) {
      if s == "" {
        assert s + rest == rest;
      }
    } else {
      BlanklessOf(s[1..], rest);
      assert (s + rest)[1..] == s[1..] + rest;
    }
  }

  lemma {:induction false} BlanklessParts(s: string) returns (blanks: string)
    ensures s == blanks + Blankless(s) && Blanks(blanks)
    ensures Blankless(s) == "" || !IsBlank(Blankless(s)[0])
  {
    BlankRunIsBlank(s);
    blanks := s[..BlankRun(s)];
  }

  lemma {:induction false} BlanklessBlanks(s: string)
    ensures Blankless(s) == "" <==> Blanks(s)
  {
    if s != "" && IsBlank(s[0]) {
      BlanklessBlanks(s[1..]);
    }
  }

  lemma {:induction false} BlanklessSpaces(s: string)
    requires Spaces(s)
    ensures Spaces(Blankless(s))
  {
  }

  // ------------------------------------------------------------------------ Bodies

  /** An element without its type specifier. */
  datatype BodyText = Nil(blanks: string) | One(n: Written) | Two(first: Written, second: Written)

  function BodyString(b: BodyText): string {
    match b
    case Nil(blanks) => blanks
    case One(n) => NumberText(n)
    case Two(first, second) => NumberText(first) + "-" + NumberText(second)
  }

  /** A blank text, a port, or two ports in order. */
  predicate GoodBody(b: BodyText) {
    match b
    case Nil(blanks) => Blanks(blanks)
    case One(n) => PortNumber(n)
    case Two(first, second) =>
      PortNumber(first) && PortNumber(second) && Decimal(first.digits) <= Decimal(second.digits)
  }

  /** What it means. */
  function Meaning(b: BodyText): Reading {
    match b
    case Nil(_) => Nothing
    case One(n) => Interval(Decimal(n.digits), Decimal(n.digits))
    case Two(first, second) => Interval(Decimal(first.digits), Decimal(second.digits))
  }

  lemma {:induction false} NoHyphen(n: Written)
    requires PortNumber(n)
    ensures '-' !in NumberText(n) && NumberText(n) != "" && !Blanks(NumberText(n))
  {
    var s := NumberText(n);
    assert s[|n.space| + |Sign(n.plus)|] == n.digits[0];
  }

  /** A number without the white space in front of it, and what follows. */
  function Tail(n: Written, rest: string): string {
    Sign(n.plus) + (n.digits + (n.blanks + rest))
  }

  lemma {:induction false} TailFront(n: Written, rest: string)
    requires n.digits != "" && AllDigits(n.digits)
    ensures var tail := Tail(n, rest);
            NumberText(n) + rest == n.space + tail && tail != "" && !IsBlank(tail[0]) && tail[0] != '-'
  {
    var tail := Tail(n, rest);
    if n.plus {
      assert tail[0] == '+';
    } else {
      assert tail == n.digits + (n.blanks + rest) && tail[0] == n.digits[0];
    }
    assert NumberText(n) + rest == n.space + tail;
  }

  lemma {:induction false} BlanksEnd(blanks: string, rest: string)
    requires Blanks(blanks) && (rest == "" || rest[0] == '-')
    ensures blanks + rest == "" || !IsDigit((blanks + rest)[0])
    ensures Blankless(blanks + rest) == rest
  {
    hide Blankless;
    BlanklessBlanks(blanks);
    BlanklessOf(blanks, rest);
    assert "" + rest == rest;
    assert blanks != "" ==> (blanks + rest)[0] == blanks[0];
  }

  lemma {:induction false} TailShape(n: Written, rest: string)
    requires PortNumber(n) && (rest == "" || rest[0] == '-')
    ensures var tail := Tail(n, rest);
            && NumberText(n) + rest == n.space + tail && tail != "" && !IsBlank(tail[0]) && tail[0] != '-'
    ensures n.blanks + rest == "" || !IsDigit((n.blanks + rest)[0])
    ensures Blankless(n.blanks + rest) == rest
  {
    hide Decimal, Tail, NumberText, Blankless;
    TailFront(n, rest);
    BlanksEnd(n.blanks, rest);
  }

  lemma {:induction false} TailRead(space: string, n: Written, rest: string)
    requires PortNumber(n) && Spaces(space) && (rest == "" || rest[0] == '-')
    ensures var s := space + Tail(n, rest);
            && !Strtol(s).erange && Strtol(s).value == Decimal(n.digits) && AfterNumber(s) == rest
  {
    hide Strtol, Decimal, Blankless;
    TailShape(n, rest);
    NumberRead(space, n.plus, n.digits, n.blanks + rest);
    var used := |space| + |Sign(n.plus)| + |n.digits|;
    assert (space + Tail(n, rest))[used..] == n.blanks + rest;
  }

  /** A written number behind blanks that were skipped. */
  lemma {:induction false} PortRead(n: Written, rest: string)
    requires PortNumber(n) && (rest == "" || rest[0] == '-')
    ensures var s := Blankless(NumberText(n) + rest);
            && !Strtol(s).erange && Strtol(s).value == Decimal(n.digits)
            && AfterNumber(s) == rest && s != "" && s[0] != '-'
  {
    BlanklessSpaces(n.space);
    hide Strtol, Blankless, AfterNumber, Tail, NumberText, PortNumber, Spaces;
    TailShape(n, rest);
    BlanklessOf(n.space, Tail(n, rest));
    TailRead(Blankless(n.space), n, rest);
    SpaceFront(Blankless(n.space), Tail(n, rest));
  }

  lemma {:induction false} SpaceFront(space: string, tail: string)
    requires Spaces(space) && tail != "" && tail[0] != '-'
    ensures space + tail != "" && (space + tail)[0] != '-'
  {
  }

  /** Where the first hyphen of an interval is. */
  lemma {:induction false} HyphenAt(first: Written, second: string)
    requires PortNumber(first)
    ensures var b := NumberText(first) + "-" + second;
            Find(b, '-') == |NumberText(first)| < |b| && b[|NumberText(first)| + 1..] == second
            && b == NumberText(first) + ("-" + second)
  {
    var b := NumberText(first) + "-" + second;
    NoHyphen(first);
    FindUnique(b, '-', |NumberText(first)|);
  }

  /** What is written well is accepted. */
  lemma {:induction false} GoodBodyAccepted(b: BodyText)
    requires GoodBody(b)
    ensures BodyValid(BodyString(b))
  {
    hide Strtol, Decimal, NumberText, AfterNumber, Blankless;
    match b
    case Nil(blanks) =>
      FindUnique(blanks, '-', |blanks|);
      BlanklessBlanks(blanks);
    case One(n) =>
      NoHyphen(n);
      FindUnique(NumberText(n), '-', |NumberText(n)|);
      assert NumberText(n) + "" == NumberText(n);
      PortRead(n, "");
    case Two(first, second) =>
      var t := NumberText(second);
      HyphenAt(first, t);
      PortRead(first, "-" + t);
      assert t + "" == t;
      PortRead(second, "");
  }

  lemma {:induction false} BlankFront(n: Written)
    requires PortNumber(n)
    ensures Blankless(NumberText(n)) == NumberText(n.(space := Blankless(n.space)))
    ensures PortNumber(n.(space := Blankless(n.space)))
  {
    BlanklessSpaces(n.space);
    var m := n.(space := Blankless(n.space));
    assert Tail(m, "") == Tail(n, "");
    assert NumberText(n) + "" == NumberText(n) && NumberText(m) + "" == NumberText(m);
    hide Decimal, Tail, NumberText, Blankless;
    TailFront(n, "");
    TailFront(m, "");
    BlanklessOf(n.space, Tail(n, ""));
  }

  /** The number in front of a hyphen, as the parser reads it: cut at the hyphen. */
  lemma {:induction false} CutRead(n: Written)
    requires PortNumber(n)
    ensures Strtol(Blankless(NumberText(n))).value == Decimal(n.digits)
  {
    hide Strtol, Decimal;
    assert NumberText(n) + "" == NumberText(n);
    PortRead(n, "");
  }

  /** And the parser reads what is meant. */
  lemma {:induction false} GoodBodyRead(b: BodyText)
    requires GoodBody(b)
    ensures ReadBody(BodyString(b)) == Meaning(b)
  {
    hide Strtol, Decimal, NumberText, Blankless;
    match b
    case Nil(blanks) =>
      BlanklessBlanks(blanks);
    case One(n) =>
      BlankFront(n);
      CutRead(n);
      var m := n.(space := Blankless(n.space));
      NoHyphen(m);
      FindUnique(NumberText(m), '-', |NumberText(m)|);
    case Two(first, second) =>
      var t := NumberText(second);
      var m := first.(space := Blankless(first.space));
      HyphenAt(first, t);
      BlankFront(first);
      NotBlankFront(first, "-" + t);
      HyphenAt(m, t);
      CutRead(first);
      CutRead(second);
      assert (NumberText(m) + "-" + t)[..|NumberText(m)|] == NumberText(m);
  }

  lemma {:induction false} NotBlankFront(n: Written, rest: string)
    requires PortNumber(n) && rest != "" && rest[0] == '-'
    ensures Blankless(NumberText(n) + rest) == Blankless(NumberText(n)) + rest
  {
    BlanklessOf(NumberText(n), rest);
  }

  // --------------------------------------------------- Whatever is accepted is written well

  lemma {:induction false} PositiveRead(s: string)
    requires 1 <= Strtol(s).value <= 65535
    ensures var i, j := SkipAllSpace(s), SignEnd(s);
            var k := DigitRun(s[j..]);
            && 0 < k && Strtol(s).used == j + k && Strtol(s).value == Decimal(s[j..][..k])
            && (j > i ==> j == i + 1 && s[i] == '+')
  {
    hide Decimal, DigitRun, SkipAllSpace;
  }

  lemma {:induction false} WrittenFrom(s: string, i: nat, j: nat, k: nat)
    requires i <= j <= j + k <= |s| && (j > i ==> j == i + 1 && s[i] == '+')
    ensures var n := Written(s[..i], j > i, s[j..][..k], "");
            NumberText(n) == s[..j + k] && s == NumberText(n) + s[j + k..]
  {
    assert s[i..j] == Sign(j > i);
    assert s[..j + k] == s[..i] + s[i..j] + s[j..][..k] + "";
  }

  /** The parts of a positive number at the front of a text. */
  lemma {:induction false} NumberParts(s: string) returns (n: Written)
    requires 1 <= Strtol(s).value <= 65535
    ensures n.blanks == "" && PortNumber(n) && Decimal(n.digits) == Strtol(s).value
    ensures s == NumberText(n) + s[Strtol(s).used..] && |NumberText(n)| == Strtol(s).used
  {
    hide Decimal, Strtol, SkipAllSpace, SignEnd, DigitRun, NumberText;
    var i, j := SkipAllSpace(s), SignEnd(s);
    var k := DigitRun(s[j..]);
    PositiveRead(s);
    SkipAllSpaceSkipsSpace(s);
    DigitRunIsDigits(s[j..]);
    WrittenFrom(s, i, j, k);
    n := Written(s[..i], j > i, s[j..][..k], "");
  }

  /** A number up to the end of the text or up to a hyphen. */
  lemma {:induction false} PortParts(s: string) returns (n: Written)
    requires 1 <= Strtol(s).value <= 65535
    ensures PortNumber(n) && Decimal(n.digits) == Strtol(s).value && s == NumberText(n) + AfterNumber(s)
  {
    hide Strtol, Decimal;
    var m := NumberParts(s);
    var rest := s[Strtol(s).used..];
    var blanks := BlanklessParts(rest);
    n := m.(blanks := blanks);
    assert NumberText(n) == NumberText(m) + blanks;
    assert NumberText(m) + rest == NumberText(n) + Blankless(rest);
  }

  lemma {:induction false} BlanksBefore(blanks: string, n: Written) returns (m: Written)
    requires Blanks(blanks) && PortNumber(n)
    ensures PortNumber(m) && m.digits == n.digits && NumberText(m) == blanks + NumberText(n)
  {
    hide Decimal;
    m := n.(space := blanks + n.space);
  }

  lemma {:induction false} OneParts(b: string) returns (x: BodyText)
    requires Find(b, '-') == |b| && IsPort(Blankless(b))
    ensures GoodBody(x) && BodyString(x) == b
  {
    var s := Blankless(b);
    FindFirst(b, '-');
    if Strtol(s).value < 0 {
      NegativeShape(s);
    }
    hide Strtol, Decimal, Find, NumberText;
    var blanks := BlanklessParts(b);
    var n := PortParts(s);
    assert NumberText(n) + "" == NumberText(n);
    var m := BlanksBefore(blanks, n);
    x := One(m);
  }

  /** The validator looks for the hyphen in the whole text. */
  lemma {:induction false} SameHyphen(b: string)
    requires Find(b, '-') < |b|
    ensures var s := Blankless(b); Find(s, '-') < |s| && b[Find(b, '-') + 1..] == s[Find(s, '-') + 1..]
  {
    HyphenOfBlankless(b);
  }

  lemma {:induction false} HyphenBehind(s: string, first: Written)
    requires PortNumber(first) && AfterNumber(s) != "" && AfterNumber(s)[0] == '-'
    requires s == NumberText(first) + AfterNumber(s)
    ensures Find(s, '-') == |NumberText(first)| < |s|
    ensures s == NumberText(first) + "-" + s[Find(s, '-') + 1..]
  {
    hide AfterNumber, NumberText, PortNumber;
    NoHyphen(first);
    var k := |NumberText(first)|;
    FindUnique(s, '-', k);
    assert s == s[..k] + [s[k]] + s[k + 1..];
  }

  lemma {:induction false} SecondParts(t: string, least: int) returns (n: Written)
    requires 1 <= least && IsPort(Blankless(t)) && least <= Strtol(Blankless(t)).value
    ensures PortNumber(n) && NumberText(n) == t && Decimal(n.digits) == Strtol(Blankless(t)).value
  {
    hide Strtol, Decimal, NumberText;
    var blanks := BlanklessParts(t);
    var m := PortParts(Blankless(t));
    assert NumberText(m) + "" == NumberText(m);
    n := BlanksBefore(blanks, m);
  }

  lemma {:induction false} TwoParts(b: string) returns (x: BodyText)
    requires Find(b, '-') < |b| && IsInterval(Blankless(b), Blankless(b[Find(b, '-') + 1..]))
    ensures GoodBody(x) && BodyString(x) == b
  {
    hide Strtol, Decimal, Find, NumberText, BlankRun, AfterNumber;
    var s := Blankless(b);
    SameHyphen(b);
    FirstIsPositive(s);
    var first := PortParts(s);
    HyphenBehind(s, first);
    var t := s[Find(s, '-') + 1..];
    var second := SecondParts(t, Strtol(s).value);
    var blanks := BlanklessParts(b);
    var m := BlanksBefore(blanks, first);
    x := Two(m, second);
    assert b == blanks + s && blanks + (NumberText(first) + "-" + t) == (blanks + NumberText(first)) + "-" + t;
  }

  /** Every accepted element without its type specifier is written well. */
  lemma {:induction false} BodyParts(b: string) returns (x: BodyText)
    requires BodyValid(b)
    ensures GoodBody(x) && BodyString(x) == b
  {
    hide IsInterval, IsPort, Find;
    if Find(b, '-') < |b| {
      x := TwoParts(b);
    } else if Blankless(b) == "" {
      BlanklessBlanks(b);
      x := Nil(b);
    } else {
      x := OneParts(b);
    }
  }

  // ---------------------------------------------------------------------- Elements

  /** A type specifier: a letter, blanks and a colon. A letter without a colon is skipped. */
  datatype MarkerText = NoMarker | Bare(letter: char, blanks: string) | Marker(letter: char, blanks: string)

  datatype ElementText = ElementText(marker: MarkerText, body: BodyText)

  function ElementString(x: ElementText): string {
    match x.marker
    case NoMarker => BodyString(x.body)
    case Bare(letter, blanks) => [letter] + (blanks + BodyString(x.body))
    case Marker(letter, blanks) => [letter] + (blanks + (":" + BodyString(x.body)))
  }

  predicate GoodMarker(x: ElementText) {
    match x.marker
    case NoMarker => true
    case Bare(letter, blanks) =>
      (letter == 'T' || letter == 'U') && Blanks(blanks) && BodyString(x.body) != "" && !IsBlank(BodyString(x.body)[0])
    case Marker(letter, blanks) => (letter == 'T' || letter == 'U') && Blanks(blanks)
  }

  /** An element of the grammar, without white space around it. */
  predicate GoodElement(x: ElementText) {
    GoodBody(x.body) && GoodMarker(x) && Stripped(ElementString(x))
  }

  /** The protocol that a type specifier sets. */
  function Sets(m: MarkerText): Option<Protocol> {
    if m.Marker? then Some(if m.letter == 'T' then Tcp else Udp) else None
  }

  lemma {:induction false} BodyFront(b: BodyText)
    requires GoodBody(b)
    ensures var s := BodyString(b); s != "" ==> s[0] != 'T' && s[0] != 'U' && s[0] != ':'
  {
    hide Decimal;
    match b
    case Nil(_) =>
    case One(n) => NumberFront(n);
    case Two(first, second) =>
      NumberFront(first);
      assert BodyString(b)[0] == NumberText(first)[0];
  }

  lemma {:induction false} NumberFront(n: Written)
    requires PortNumber(n)
    ensures NumberText(n) != "" && NumberText(n)[0] != 'T' && NumberText(n)[0] != 'U' && NumberText(n)[0] != ':'
  {
    hide Decimal;
    var s := NumberText(n);
    assert s[|n.space| + |Sign(n.plus)|] == n.digits[0];
    if n.space != "" {
      assert s[0] == n.space[0];
    } else if n.plus {
      assert s[0] == '+';
    } else {
      assert s[0] == n.digits[0];
    }
  }

  /** The type specifier and the body are told apart. */
  lemma {:induction false} ElementSplit(x: ElementText)
    requires GoodElement(x)
    ensures SplitMarker(ElementString(x)) == Marked(Sets(x.marker), BodyString(x.body))
  {
    hide Blankless, GoodBody, BodyString;
    var e, b := ElementString(x), BodyString(x.body);
    BodyFront(x.body);
    match x.marker
    case NoMarker =>
    case Bare(letter, blanks) =>
      assert e[1..] == blanks + b;
      BlanklessBlanks(blanks);
      BlanklessOf(blanks, b);
      assert "" + b == b;
    case Marker(letter, blanks) =>
      assert e[1..] == blanks + (":" + b);
      BlanklessBlanks(blanks);
      BlanklessOf(blanks, ":" + b);
      assert "" + (":" + b) == ":" + b && (":" + b)[1..] == b;
  }

  /** Every accepted element is one of the grammar. */
  lemma {:induction false} ElementParts(e: string) returns (x: ElementText)
    requires Stripped(e) && BodyValid(SplitMarker(e).body)
    ensures GoodElement(x) && ElementString(x) == e
  {
    hide BodyValid, GoodBody, BodyString;
    var body := BodyParts(SplitMarker(e).body);
    var s := BodyString(body);
    if |e| >= 2 && (e[0] == 'T' || e[0] == 'U') {
      var r := Blankless(e[1..]);
      var blanks := BlanklessParts(e[1..]);
      hide Blankless;
      assert e == [e[0]] + e[1..];
      if r != "" && r[0] == ':' {
        assert r == ":" + r[1..];
        x := ElementText(Marker(e[0], blanks), body);
      } else {
        SpecifierNotAlone(e, blanks, r);
        x := ElementText(Bare(e[0], blanks), body);
      }
    } else {
      x := ElementText(NoMarker, body);
    }
  }

  lemma {:induction false} SpecifierNotAlone(e: string, blanks: string, r: string)
    requires Stripped(e) && |e| >= 2 && e[1..] == blanks + r && Blanks(blanks)
    ensures r != ""
  {
    assert e[|e| - 1] == e[1..][|e| - 2];
  }

  /** An element is accepted exactly if it is one of the grammar. */
  lemma {:induction false} ElementGrammar(e: string)
    requires Stripped(e)
    ensures BodyValid(SplitMarker(e).body) <==> exists x :: GoodElement(x) && ElementString(x) == e
  {
    hide BodyValid, GoodElement, ElementString;
    if BodyValid(SplitMarker(e).body) {
      var x := ElementParts(e);
    }
    if x :| GoodElement(x) && ElementString(x) == e {
      ElementSplit(x);
      ElementBodyGood(x);
      GoodBodyAccepted(x.body);
    }
  }

  lemma {:induction false} ElementBodyGood(x: ElementText)
    requires GoodElement(x)
    ensures GoodBody(x.body)
  {
  }

  // ----------------------------------------------------------------- Whole strings

  /** The protocol of the latest type specifier with a colon, or TCP. */
  function Latest(xs: seq<ElementText>): Protocol {
    if xs == [] then Tcp
    else if Sets(xs[|xs| - 1].marker).Some? then Sets(xs[|xs| - 1].marker).value
    else Latest(xs[..|xs| - 1])
  }

  /** The ranges that elements denote: one for each that is not blank, in order, from its
      first to its last written number. */
  function Denoted(xs: seq<ElementText>): seq<Range> {
    if xs == [] then []
    else
      var front, m := Denoted(xs[..|xs| - 1]), Meaning(xs[|xs| - 1].body);
      if m.Interval? then front + [Range(m.start, m.end, Latest(xs), false)] else front
  }

  predicate GoodElements(xs: seq<ElementText>) {
    forall i :: 0 <= i < |xs| ==> GoodElement(xs[i])
  }

  /** The pieces, without white space around them, are the elements. */
  predicate AreElements(pieces: seq<string>, xs: seq<ElementText>) {
    |pieces| == |xs| && forall i :: 0 <= i < |xs| ==> Strip(pieces[i]) == ElementString(xs[i])
  }

  lemma {:induction false} ElementToken(piece: string, x: ElementText)
    requires GoodElement(x) && Strip(piece) == ElementString(x)
    ensures BodyValid(Body(piece)) && TokenOf(piece) == Token(Sets(x.marker), Meaning(x.body))
  {
    hide Strip, GoodElement, ElementString, SplitMarker, BodyValid, ReadBody;
    ElementSplit(x);
    ElementBodyGood(x);
    GoodBodyAccepted(x.body);
    GoodBodyRead(x.body);
  }

  lemma {:induction false} ElementRanges(pieces: seq<string>, xs: seq<ElementText>)
    requires GoodElements(xs) && AreElements(pieces, xs)
    ensures ValidPieces(pieces)
    ensures RangesOf(Tokens(pieces)) == Denoted(xs) && LatestMarker(Tokens(pieces)) == Latest(xs)
  {
    hide Strip, GoodElement, ElementString, BodyValid, Body, TokenOf;
    forall i | 0 <= i < |pieces|
      ensures BodyValid(Body(pieces[i]))
    {
      ElementToken(pieces[i], xs[i]);
    }
    if xs != [] {
      var n := |xs| - 1;
      ElementRanges(pieces[..n], xs[..n]);
      ElementToken(pieces[n], xs[n]);
      assert Tokens(pieces)[..n] == Tokens(pieces[..n]) && Tokens(pieces)[n] == TokenOf(pieces[n]);
    }
  }

  /** Every accepted string is made of elements of the grammar, one for every piece; and
      its ranges are those that the elements denote. */
  lemma {:induction false} AcceptedIsWritten(s: string) returns (xs: seq<ElementText>)
    requires Accepted(s)
    ensures GoodElements(xs) && AreElements(PortPieces(s), xs)
    ensures RangesOfString(s) == Denoted(xs)
  {
    hide PortPieces, Blankless, Body, BodyValid, Strip, GoodElement, ElementString, Denoted, RangesOf;
    xs := PieceParts(PortPieces(s));
    ElementRanges(PortPieces(s), xs);
  }

  lemma {:induction false} PieceParts(pieces: seq<string>) returns (xs: seq<ElementText>)
    requires ValidPieces(pieces)
    ensures GoodElements(xs) && AreElements(pieces, xs)
  {
    hide Strip, GoodElement, ElementString, BodyValid;
    xs := [];
    if pieces != [] {
      var n := |pieces| - 1;
      var front := PieceParts(pieces[..n]);
      assert BodyValid(Body(pieces[n]));
      StripIsStripped(pieces[n]);
      var x := ElementParts(Strip(pieces[n]));
      xs := front + [x];
    }
  }

  lemma {:induction false} StripIsStripped(s: string)
    ensures Stripped(Strip(s))
  {
  }

  /** An element with white space around it, but no newline, which is a separator. */
  datatype Piece = Piece(pre: string, x: ElementText, post: string)

  predicate GoodPiece(p: Piece) {
    Spacing(p.pre) && Spacing(p.post) && GoodElement(p.x) && '\n' !in ElementString(p.x)
  }

  function PieceString(p: Piece): string {
    p.pre + ElementString(p.x) + p.post
  }

  function PieceStrings(ps: seq<Piece>): (r: seq<string>)
    ensures |r| == |ps|
  {
    seq(|ps|, i requires 0 <= i < |ps| => PieceString(ps[i]))
  }

  function ElementsOf(ps: seq<Piece>): (r: seq<ElementText>)
    ensures |r| == |ps|
  {
    seq(|ps|, i requires 0 <= i < |ps| => ps[i].x)
  }

  lemma {:induction false} NoCommaInNumber(n: Written)
    requires PortNumber(n)
    ensures ',' !in NumberText(n)
  {
    hide Decimal;
  }

  lemma {:induction false} NoCommaInBody(b: BodyText)
    requires GoodBody(b)
    ensures ',' !in BodyString(b)
  {
    hide Decimal, PortNumber, NumberText;
    match b
    case Nil(_) =>
    case One(n) => NoCommaInNumber(n);
    case Two(first, second) =>
      NoCommaInNumber(first);
      NoCommaInNumber(second);
  }

  lemma {:induction false} NoCommaInElement(x: ElementText)
    requires GoodElement(x)
    ensures ',' !in ElementString(x)
  {
    hide GoodBody, BodyString;
    NoCommaInBody(x.body);
  }

  lemma {:induction false} PiecePlain(p: Piece)
    requires GoodPiece(p)
    ensures ',' !in PieceString(p) && '\n' !in PieceString(p) && Strip(PieceString(p)) == ElementString(p.x)
  {
    hide GoodElement, ElementString, Strip;
    NoCommaInElement(p.x);
    ElementStripped(p.x);
    StripAround(p.pre, ElementString(p.x), p.post);
    SpacingPlain(p.pre);
    SpacingPlain(p.post);
  }

  lemma {:induction false} ElementStripped(x: ElementText)
    requires GoodElement(x)
    ensures Stripped(ElementString(x))
  {
  }

  lemma {:induction false} StripBlankless(s: string)
    ensures Strip(Blankless(s)) == Strip(s)
  {
    hide Blankless, Strip;
    var blanks := BlanklessParts(s);
    var r := Blankless(s);
    var pre, post := StripParts(r);
    var core := Strip(r);
    assert s == (blanks + pre) + core + post;
    StripAround(blanks + pre, core, post);
  }

  /** Blanks in front of a string are in front of its first piece. */
  lemma {:induction false} BlanklessSeparated(pieces: seq<string>, seps: string)
    requires |pieces| == |seps| + 1 && Separators(seps)
    ensures Blankless(Separated(pieces, seps)) == Separated([Blankless(pieces[0])] + pieces[1..], seps)
  {
    if seps == "" {
      assert ([Blankless(pieces[0])] + pieces[1..])[0] == Blankless(pieces[0]);
    } else {
      var rest := [seps[0]] + Separated(pieces[1..], seps[1..]);
      hide Blankless;
      BlanklessOf(pieces[0], rest);
      assert Separated(pieces, seps) == pieces[0] + rest;
      assert ([Blankless(pieces[0])] + pieces[1..])[1..] == pieces[1..];
      assert Blankless(pieces[0]) + rest == Blankless(pieces[0]) + [seps[0]] + Separated(pieces[1..], seps[1..]);
    }
  }

  lemma {:induction false} StringPieces(ps: seq<Piece>, seps: string)
    requires |ps| == |seps| + 1 && Separators(seps) && forall i :: 0 <= i < |ps| ==> GoodPiece(ps[i])
    requires !Blanks(Separated(PieceStrings(ps), seps))
    ensures var t := Separated(PieceStrings(ps), seps);
            Blankless(t) != "" && AreElements(PortPieces(t), ElementsOf(ps))
  {
    hide Blankless, PieceString, GoodPiece, Strip, Separated, Pieces, NewlinesToCommas, ElementString;
    var texts := PieceStrings(ps);
    var t := Separated(texts, seps);
    var pieces := [Blankless(texts[0])] + texts[1..];
    BlanklessBlanks(t);
    BlanklessSeparated(texts, seps);
    StripBlankless(texts[0]);
    forall i | 0 <= i < |ps|
      ensures ',' !in texts[i] && '\n' !in texts[i] && Strip(pieces[i]) == ElementString(ps[i].x)
    {
      PiecePlain(ps[i]);
    }
    BlanklessPlain(texts[0]);
    SeparatedPieces(pieces, seps);
  }

  lemma {:induction false} BlanklessPlain(s: string)
    requires ',' !in s && '\n' !in s
    ensures ',' !in Blankless(s) && '\n' !in Blankless(s)
  {
  }

  /** Every string that is written from elements, with white space around them and with
      commas and newlines between them, is accepted unless it is blank, and its ranges are
      those that the elements denote. */
  lemma {:induction false} WrittenIsAccepted(ps: seq<Piece>, seps: string)
    requires |ps| == |seps| + 1 && Separators(seps) && forall i :: 0 <= i < |ps| ==> GoodPiece(ps[i])
    ensures var t := Separated(PieceStrings(ps), seps);
            && (Accepted(t) <==> !Blanks(t))
            && (Accepted(t) ==> RangesOfString(t) == Denoted(ElementsOf(ps)))
  {
    hide Blankless, PortPieces, ValidPieces, RangesOf, Denoted, AreElements, GoodElement, PieceString, Separated;
    var t := Separated(PieceStrings(ps), seps);
    BlanklessBlanks(t);
    if !Blanks(t) {
      StringPieces(ps, seps);
      assert forall i :: 0 <= i < |ps| ==> GoodElement(ps[i].x);
      ElementRanges(PortPieces(t), ElementsOf(ps));
    }
  }

  // ------------------------------------------------------------------- Single ports

  lemma {:induction false} PortElement(d: string)
    requires d != "" && AllDigits(d) && 1 <= Decimal(d) <= 65535
    ensures var x := ElementText(NoMarker, One(Written("", false, d, "")));
            && GoodElement(x) && ElementString(x) == d
            && Denoted([x]) == [Range(Decimal(d), Decimal(d), Tcp, false)]
  {
    hide Decimal;
    var x := ElementText(NoMarker, One(Written("", false, d, "")));
    assert NumberText(x.body.n) == d;
    assert [x][..0] == [] && Denoted([]) == [] && Latest([]) == Tcp && Latest([x]) == Tcp;
  }

  /** Digits alone are accepted exactly if they are a port, and read as that port. */
  lemma {:induction false} SinglePort(d: string)
    requires d != "" && AllDigits(d)
    ensures Accepted(d) <==> 1 <= Decimal(d) <= 65535
    ensures Accepted(d) ==> RangesOfString(d) == [Range(Decimal(d), Decimal(d), Tcp, false)]
  {
    hide Decimal, Strip, BodyValid, Blankless, PortPieces, Body, RangesOf, Denoted, GoodElement, ElementString;
    OnePieceOf(d);
    if 1 <= Decimal(d) <= 65535 {
      PortElement(d);
      ElementRanges([d], [ElementText(NoMarker, One(Written("", false, d, "")))]);
    } else {
      DigitsRejected(d);
      assert PortPieces(d)[0] == d;
    }
  }

  lemma {:induction false} OnePieceOf(d: string)
    requires d != "" && AllDigits(d)
    ensures PortPieces(d) == [d] && Strip(d) == d && Body(d) == d && Blankless(d) == d
  {
    assert BlankRun(d) == 0;
    NoNewlines(d);
    FindUnique(d, ',', |d|);
    StripStripped(d);
  }

  lemma {:induction false} DigitsRejected(d: string)
    requires d != "" && AllDigits(d) && !(1 <= Decimal(d) <= 65535)
    ensures !BodyValid(d)
  {
    FindUnique(d, '-', |d|);
    assert BlankRun(d) == 0;
    hide Strtol, Decimal;
    StrtolOfDigit(d);
    DigitRunOf(d, "");
    assert d + "" == d && d[..|d|] == d;
  }
}
