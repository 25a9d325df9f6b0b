/**
 The C and GLib string functions the modelled code calls: splitting, stripping,
 searching and reading numbers. Strings are C strings without the final NUL.
 */
module Text {

  datatype Option<+T> = None | Some(value: T)

  /** isblank. */
  predicate IsBlank(c: char) {
    c == ' ' || c == '\t'
  }

  /** g_ascii_isspace. */
  predicate IsAsciiSpace(c: char) {
    c == ' ' || c == '\t' || c == '\n' || c == '\r' || c == '\U{0C}'
  }

  /** isspace: also the vertical tab. */
  predicate IsSpace(c: char) {
    IsAsciiSpace(c) || c == '\U{0B}'
  }

  predicate IsDigit(c: char) {
    '0' <= c <= '9'
  }

  predicate IsHexDigit(c: char) {
    IsDigit(c) || 'a' <= c <= 'f' || 'A' <= c <= 'F'
  }

  /** g_ascii_tolower. */
  function ToLower(c: char): char {
    if 'A' <= c <= 'Z' then c + ('a' - 'A') else c
  }

  /** g_ascii_strdown; two strings with equal lower case are equal for strcasecmp. */
  function Lower(s: string): (r: string)
    ensures |r| == |s|
  {
    seq(|s|, i requires 0 <= i < |s| => ToLower(s[i]))
  }

  /** Two characters are the same letter, of either case, or equal. */
  predicate SameLetter(a: char, b: char) {
    a == b || ('A' <= a <= 'Z' && b as int == a as int + 32) || ('A' <= b <= 'Z' && a as int == b as int + 32)
  }

  predicate SameLetters(a: string, b: string) {
    |a| == |b| && forall i :: 0 <= i < |a| ==> SameLetter(a[i], b[i])
  }

  /** Strings with equal lower case differ in the case of letters at most. */
  lemma {:induction false} SameLower(a: string, b: string)
    ensures Lower(a) == Lower(b) <==> SameLetters(a, b)
  {
    if |a| == |b| {
      forall i | 0 <= i < |a|
        ensures ToLower(a[i]) == ToLower(b[i]) <==> SameLetter(a[i], b[i])
      {
        LowerLetter(a[i], b[i]);
      }
      if Lower(a) == Lower(b) {
        forall i | 0 <= i < |a|
          ensures SameLetter(a[i], b[i])
        {
          assert Lower(a)[i] == Lower(b)[i];
        }
      }
    } else {
      assert |Lower(a)| != |Lower(b)|;
    }
  }

  lemma {:induction false} LowerLetter(a: char, b: char)
    ensures ToLower(a) == ToLower(b) <==> SameLetter(a, b)
  {
  }

  // ---------------------------------------------------------- Search and split

  /** strchr: the first position of c, or the length of s. */
  function Find(s: string, c: char): (i: nat)
    ensures i <= |s|
    ensures i < |s| ==> s[i] == c
  {
    if s == "" then 0
    else if s[0] == c then 0
    else 1 + Find(s[1..], c)
  }

  lemma {:induction false} FindFirst(s: string, c: char)
    ensures forall k :: 0 <= k < Find(s, c) ==> s[k] != c
  {
    if s != "" && s[0] != c {
      FindFirst(s[1..], c);
    }
  }

  /** The pieces between the separators; there is always at least one. */
  function Pieces(s: string, sep: char): (r: seq<string>)
    ensures r != []
    decreases |s|
  {
    var i := Find(s, sep);
    if i == |s| then [s] else [s[..i]] + Pieces(s[i + 1..], sep)
  }

  /** g_strsplit with no limit: the empty string has no pieces. */
  function Split(s: string, sep: char): seq<string> {
    if s == "" then [] else Pieces(s, sep)
  }

  /** The pieces with the separator between them. */
  function Join(pieces: seq<string>, sep: string): string {
    if pieces == [] then ""
    else if |pieces| == 1 then pieces[0]
    else pieces[0] + sep + Join(pieces[1..], sep)
  }

  /** Newlines are treated like commas. */
  function NewlinesToCommas(s: string): (r: string)
    ensures |r| == |s|
  {
    seq(|s|, i requires 0 <= i < |s| => if s[i] == '\n' then ',' else s[i])
  }

  lemma {:induction false} FindUnique(s: string, c: char, i: nat)
    requires i <= |s| && (forall k :: 0 <= k < i ==> s[k] != c) && (i < |s| ==> s[i] == c)
    ensures Find(s, c) == i
  {
    if i > 0 {
      FindUnique(s[1..], c, i - 1);
    }
  }

  lemma {:induction false} PiecesOfPrefix(x: string, rest: string, sep: char)
    requires sep !in x
    ensures Pieces(x + [sep] + rest, sep) == [x] + Pieces(rest, sep)
  {
    var s := x + [sep] + rest;
    assert s[..|x|] == x && s[|x| + 1..] == rest;
    FindUnique(s, sep, |x|);
  }

  /** Splitting undoes joining, for pieces without the separator. */
  lemma {:induction false} PiecesOfJoin(pieces: seq<string>, sep: char)
    requires pieces != [] && forall i :: 0 <= i < |pieces| ==> sep !in pieces[i]
    ensures Pieces(Join(pieces, [sep]), sep) == pieces
  {
    if |pieces| == 1 {
      FindUnique(pieces[0], sep, |pieces[0]|);
    } else {
      var rest := Join(pieces[1..], [sep]);
      assert Join(pieces, [sep]) == pieces[0] + [sep] + rest;
      hide Join, Pieces;
      PiecesOfJoin(pieces[1..], sep);
      PiecesOfPrefix(pieces[0], rest, sep);
      assert pieces == [pieces[0]] + pieces[1..];
    }
  }

  // ----------------------------------------------------------------- Stripping

  function SkipSpace(s: string): (i: nat)
    ensures i <= |s|
    ensures forall k :: 0 <= k < i ==> IsAsciiSpace(s[k])
    ensures i < |s| ==> !IsAsciiSpace(s[i])
  {
    if s == "" || !IsAsciiSpace(s[0]) then 0 else 1 + SkipSpace(s[1..])
  }

  /** The length of s without trailing white space. */
  function TrimmedLength(s: string): (n: nat)
    ensures n <= |s|
    ensures forall k :: n <= k < |s| ==> IsAsciiSpace(s[k])
    ensures n > 0 ==> !IsAsciiSpace(s[n - 1])
  {
    if s == "" || !IsAsciiSpace(s[|s| - 1]) then |s| else TrimmedLength(s[..|s| - 1])
  }

  /** g_strstrip. */
  function Strip(s: string): (r: string)
    ensures r != "" ==> !IsAsciiSpace(r[0]) && !IsAsciiSpace(r[|r| - 1])
    ensures |r| <= |s|
  {
    var t := s[..TrimmedLength(s)];
    t[SkipSpace(t)..]
  }

  /** No white space at either end. */
  predicate Stripped(s: string) {
    s == "" || (!IsAsciiSpace(s[0]) && !IsAsciiSpace(s[|s| - 1]))
  }

  lemma {:induction false} StripStripped(s: string)
    requires Stripped(s)
    ensures Strip(s) == s
  {
    assert s[..|s|] == s;
  }

  lemma {:induction false} StripAfterSpace(s: string)
    requires Stripped(s) && s != ""
    ensures Strip(" " + s) == s
  {
    var t := " " + s;
    assert t[|t| - 1] == s[|s| - 1] && TrimmedLength(t) == |t|;
    assert t[1..] == s && t[0] == ' ';
    assert SkipSpace(t) == 1 + SkipSpace(s);
  }

  predicate White(s: string) {
    forall i :: 0 <= i < |s| ==> IsAsciiSpace(s[i])
  }

  /** White space without newlines, which are separators. */
  predicate Spacing(s: string) {
    White(s) && '\n' !in s
  }

  lemma {:induction false} SpacingPlain(s: string)
    requires Spacing(s)
    ensures ',' !in s && '\n' !in s
  {
  }

  /** What is removed and what remains. */
  lemma {:induction false} StripParts(s: string) returns (pre: string, post: string)
    ensures s == pre + Strip(s) + post && White(pre) && White(post) && Stripped(Strip(s))
  {
    var n := TrimmedLength(s);
    var k := SkipSpace(s[..n]);
    pre, post := s[..n][..k], s[n..];
    assert Strip(s) == s[..n][k..];
  }

  /** White space around a text is removed, and no more. */
  lemma {:induction false} StripAround(pre: string, s: string, post: string)
    requires White(pre) && White(post) && Stripped(s)
    ensures Strip(pre + s + post) == s
  {
    var t := pre + s + post;
    var n := TrimmedLength(t);
    if s == "" {
      assert White(t);
      assert n == 0;
    } else {
      assert t[|pre| + |s| - 1] == s[|s| - 1] && t[|pre|] == s[0];
      assert forall k :: |pre| + |s| <= k < |t| ==> t[k] == post[k - |pre| - |s|];
      assert n == |pre| + |s|;
      var u := t[..n];
      assert u == pre + s && forall k :: 0 <= k < |pre| ==> u[k] == pre[k];
      assert SkipSpace(u) == |pre|;
    }
  }

  // ---------------------------------------------------------------- Separators

  /** The pieces with one character of `seps` between any two. */
  function Separated(pieces: seq<string>, seps: string): string
    requires |pieces| == |seps| + 1
  {
    if seps == "" then pieces[0] else pieces[0] + [seps[0]] + Separated(pieces[1..], seps[1..])
  }

  /** Commas and newlines, in any mixture. */
  predicate Separators(seps: string) {
    forall i :: 0 <= i < |seps| ==> seps[i] == ',' || seps[i] == '\n'
  }

  predicate NoSeparators(pieces: seq<string>) {
    forall i :: 0 <= i < |pieces| ==> ',' !in pieces[i] && '\n' !in pieces[i]
  }

  lemma {:induction false} NewlinesToCommasConcat(a: string, b: string)
    ensures NewlinesToCommas(a + b) == NewlinesToCommas(a) + NewlinesToCommas(b)
  {
  }

  lemma {:induction false} NoNewlines(s: string)
    requires '\n' !in s
    ensures NewlinesToCommas(s) == s
  {
  }

  /** Texts separated by commas and newlines are split into the same texts. */
  lemma {:induction false} SeparatedPieces(pieces: seq<string>, seps: string)
    requires |pieces| == |seps| + 1 && Separators(seps) && NoSeparators(pieces)
    ensures Pieces(NewlinesToCommas(Separated(pieces, seps)), ',') == pieces
  {
    hide NewlinesToCommas;
    NoNewlines(pieces[0]);
    if seps == "" {
      FindUnique(pieces[0], ',', |pieces[0]|);
    } else {
      hide Pieces;
      var rest := Separated(pieces[1..], seps[1..]);
      SeparatedPieces(pieces[1..], seps[1..]);
      NewlinesToCommasConcat(pieces[0] + [seps[0]], rest);
      NewlinesToCommasConcat(pieces[0], [seps[0]]);
      OneSeparator(seps[0]);
      PiecesOfPrefix(pieces[0], NewlinesToCommas(rest), ',');
      assert pieces == [pieces[0]] + pieces[1..];
    }
  }

  lemma {:induction false} OneSeparator(sep: char)
    requires sep == ',' || sep == '\n'
    ensures NewlinesToCommas([sep]) == ","
  {
  }

  // ------------------------------------------------------------------- Numbers

  function DigitValue(c: char): (d: nat)
    ensures d <= 9
  {
    if IsDigit(c) then (c - '0') as int else 0
  }

  predicate AllDigits(s: string) {
    forall i :: 0 <= i < |s| ==> IsDigit(s[i])
  }

  /** The number a string of digits denotes. */
  function Decimal(s: string): nat {
    if s == "" then 0 else 10 * Decimal(s[..|s| - 1]) + DigitValue(s[|s| - 1])
  }

  /** How many characters of s at the front are digits. */
  function DigitRun(s: string): (n: nat)
    ensures n <= |s|
  {
    if s == "" || !IsDigit(s[0]) then 0 else 1 + DigitRun(s[1..])
  }

  lemma {:induction false} DigitRunIsDigits(s: string)
    ensures forall k :: 0 <= k < DigitRun(s) ==> IsDigit(s[k])
    ensures DigitRun(s) < |s| ==> !IsDigit(s[DigitRun(s)])
  {
    if s != "" && IsDigit(s[0]) {
      DigitRunIsDigits(s[1..]);
    }
  }

  const LONG_MAX: int := 0x7fff_ffff_ffff_ffff

  /** What strtol in base 10 returns: the value clipped to a long, the number of
      characters it used, and whether it reports a range error. */
  datatype Number = Number(value: int, used: nat, erange: bool)

  function SkipAllSpace(s: string): (i: nat)
    ensures i <= |s|
  {
    if s == "" || !IsSpace(s[0]) then 0 else 1 + SkipAllSpace(s[1..])
  }

  lemma {:induction false} SkipAllSpaceSkipsSpace(s: string)
    ensures forall k :: 0 <= k < SkipAllSpace(s) ==> IsSpace(s[k])
  {
    if s != "" && IsSpace(s[0]) {
      SkipAllSpaceSkipsSpace(s[1..]);
    }
  }

  /** Where the digits begin: behind white space and at most one sign. */
  function SignEnd(s: string): (j: nat)
    ensures SkipAllSpace(s) <= j <= |s|
  {
    var i := SkipAllSpace(s);
    if i < |s| && (s[i] == '-' || s[i] == '+') then i + 1 else i
  }

  /** The number that the digits at the front of d denote, clipped to a long. */
  function FromDigits(d: string, negative: bool, offset: nat): (n: Number)
    ensures n.used <= offset + |d|
  {
    var k := DigitRun(d);
    if k == 0 then Number(0, 0, false)
    else
      var magnitude: int := Decimal(d[..k]);
      if negative then
        if magnitude > LONG_MAX + 1 then Number(-LONG_MAX - 1, offset + k, true)
        else Number(-magnitude, offset + k, false)
      else
        if magnitude > LONG_MAX then Number(LONG_MAX, offset + k, true)
        else Number(magnitude, offset + k, false)
  }

  function Strtol(s: string): (n: Number)
    ensures n.used <= |s|
  {
    var j := SignEnd(s);
    FromDigits(s[j..], j > 0 && s[j - 1] == '-', j)
  }

  /** A string that starts with a digit is read up to the first other character. */
  lemma {:induction false} StrtolOfDigit(s: string)
    requires s != "" && IsDigit(s[0])
    ensures var k := DigitRun(s);
            && k > 0 && Strtol(s).used == k
            && Strtol(s).value == (if Decimal(s[..k]) > LONG_MAX then LONG_MAX else Decimal(s[..k]))
  {
    assert SkipAllSpace(s) == 0 && SignEnd(s) == 0;
    assert s[0..] == s;
  }

  // ------------------------------------------------------------------ Printing

  /** The decimal digits of a number, as printed by "%d" and "%u". */
  function Digits(n: nat): (s: string)
    ensures s != ""
  {
    var last := [('0' as int + n % 10) as char];
    if n < 10 then last else Digits(n / 10) + last
  }

  lemma {:induction false} DigitsAreDigits(n: nat)
    ensures AllDigits(Digits(n)) && Decimal(Digits(n)) == n
  {
    var s := Digits(n);
    if n >= 10 {
      DigitsAreDigits(n / 10);
      assert s[..|s| - 1] == Digits(n / 10);
    } else {
      assert s[..0] == "";
    }
  }

  lemma {:induction false} DigitRunOf(d: string, rest: string)
    requires AllDigits(d) && (rest == "" || !IsDigit(rest[0]))
    ensures DigitRun(d + rest) == |d|
  {
    if d == "" {
      assert d + rest == rest;
    } else {
      DigitRunOf(d[1..], rest);
      assert (d + rest)[1..] == d[1..] + rest;
    }
  }

  /** Reading a printed number gives the number. */
  lemma {:induction false} StrtolOfDigits(n: nat, rest: string)
    requires n <= LONG_MAX && (rest == "" || !IsDigit(rest[0]))
    ensures Strtol(Digits(n) + rest) == Number(n, |Digits(n)|, false)
  {
    var s := Digits(n) + rest;
    DigitsAreDigits(n);
    DigitRunOf(Digits(n), rest);
    assert SkipAllSpace(s) == 0 && SignEnd(s) == 0;
    assert s[0..] == s && s[..|Digits(n)|] == Digits(n);
  }

  /** "%d". */
  function Printed(i: int): string {
    if i < 0 then "-" + Digits(-i) else Digits(i)
  }

  lemma {:induction false} StrtolOfPrinted(i: int)
    requires -LONG_MAX <= i <= LONG_MAX
    ensures Strtol(Printed(i)).value == i
  {
    if i >= 0 {
      assert Digits(i) + "" == Digits(i);
      StrtolOfDigits(i, "");
    } else {
      var d, s := Digits(-i), Printed(i);
      DigitsAreDigits(-i);
      DigitRunOf(d, "");
      assert d + "" == d && d[..|d|] == d;
      assert SkipAllSpace(s) == 0 && SignEnd(s) == 1 && s[1..] == d;
    }
  }

  // ------------------------------------------------------------------ Written lists

  /** The texts with white space around them. */
  function Padded(texts: seq<string>, pre: seq<string>, post: seq<string>): (r: seq<string>)
    requires |texts| == |pre| == |post|
    ensures |r| == |texts|
  {
    seq(|texts|, i requires 0 <= i < |texts| => pre[i] + texts[i] + post[i])
  }

  /** Texts that can be written in a list, and white space around them. */
  predicate Listable(texts: seq<string>, pre: seq<string>, post: seq<string>) {
    && |texts| == |pre| == |post|
    && forall i :: 0 <= i < |texts| ==>
         texts[i] != "" && ',' !in texts[i] && Stripped(texts[i]) && White(pre[i]) && White(post[i])
  }

  lemma {:induction false} NoCommas(s: string)
    requires White(s)
    ensures ',' !in s
  {
  }

  lemma {:induction false} JoinNotEmpty(pieces: seq<string>)
    requires pieces != [] && pieces[0] != ""
    ensures Join(pieces, ",") != ""
  {
  }

  /** A list written with commas is split into its texts, up to the white space. */
  lemma {:induction false} PaddedPieces(texts: seq<string>, pre: seq<string>, post: seq<string>)
    requires Listable(texts, pre, post)
    ensures Split(Join(Padded(texts, pre, post), ","), ',') == Padded(texts, pre, post)
    ensures forall i :: 0 <= i < |texts| ==> Strip(Padded(texts, pre, post)[i]) == texts[i]
  {
    hide Join, Pieces, Strip, White, Stripped;
    var pieces := Padded(texts, pre, post);
    forall i | 0 <= i < |texts|
      ensures ',' !in pieces[i] && Strip(pieces[i]) == texts[i]
    {
      NoCommas(pre[i]);
      NoCommas(post[i]);
      StripAround(pre[i], texts[i], post[i]);
    }
    if texts == [] {
      NothingJoined();
      assert pieces == [];
    } else {
      PiecesOfJoin(pieces, ',');
      JoinNotEmpty(pieces);
    }
  }

  lemma {:induction false} NothingJoined()
    ensures Join([], ",") == ""
  {
  }
}
