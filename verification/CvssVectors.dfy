/**
 What CVSS v3 vectors mean, said from their written parts: which value each metric has, and
 which score a vector has.
 */
module CvssVectors {
  import opened Text
  import opened Cvss

  // ------------------------------------------------------------------------- Parts

  /** A component: the name of a metric, in any case, and its value. */
  datatype Part = Part(m: Metric, name: string, value: string)

  predicate GoodPart(p: Part) {
    Lower(p.name) == Name(p.m) && '/' !in p.value
  }

  function PartText(p: Part): string {
    p.name + p.value
  }

  function PartTexts(ps: seq<Part>): (r: seq<string>)
    ensures |r| == |ps|
  {
    seq(|ps|, i requires 0 <= i < |ps| => PartText(ps[i]))
  }

  /** The components with slashes between them. */
  function VectorText(ps: seq<Part>): string {
    Join(PartTexts(ps), "/")
  }

  /** Good components, each metric at most once. */
  predicate GoodParts(ps: seq<Part>) {
    && (forall i :: 0 <= i < |ps| ==> GoodPart(ps[i]))
    && forall i, j :: 0 <= i < j < |ps| ==> ps[i].m != ps[j].m
  }

  // ------------------------------------------------------------ Which metric is named

  lemma {:induction false} NameShape(m: Metric)
    ensures var n := Name(m); 2 <= |n| <= 3 && n[|n| - 1] == ':' && forall i :: 0 <= i < |n| - 1 ==> n[i] != ':'
  {
  }

  lemma {:induction false} NamesDiffer(a: Metric, b: Metric)
    ensures Name(a) == Name(b) <==> a == b
  {
    if Name(a) == Name(b) {
      assert Name(a)[0] == Name(b)[0] && Name(a)[1] == Name(b)[1] && |Name(a)| == |Name(b)|;
    }
  }

  lemma {:induction false} LowerPrefix(s: string, k: nat)
    requires k <= |s|
    ensures Lower(s[..k]) == Lower(s)[..k]
  {
  }

  lemma {:induction false} LowerConcat(a: string, b: string)
    ensures Lower(a + b) == Lower(a) + Lower(b)
  {
  }

  /** A component names its own metric and no other one. */
  lemma {:induction false} PartNames(p: Part, m: Metric)
    requires GoodPart(p)
    ensures Names(PartText(p), m) <==> m == p.m
  {
    var s := PartText(p);
    var k := |Name(m)|;
    NameShape(m);
    NameShape(p.m);
    NamesDiffer(m, p.m);
    assert |p.name| == |Name(p.m)|;
    LowerConcat(p.name, p.value);
    hide Name, Lower;
    if k <= |s| {
      LowerPrefix(s, k);
      var t, n := Lower(s)[..k], Name(p.m);
      assert forall i :: 0 <= i < k && i < |n| ==> t[i] == n[i];
      assert k == |n| ==> t == n;
      assert k < |n| ==> t[k - 1] == n[k - 1];
      assert k > |n| ==> t[|n| - 1] == n[|n| - 1];
    }
  }

  // ---------------------------------------------------------------- What is read

  /** The weight of a value; an unknown one has none. */
  function WeightOf(m: Metric, value: string): real {
    if Weight(m, Lower(value)).Some? then Weight(m, Lower(value)).value else -1.0
  }

  /** An unknown value of these metrics leaves the weight as it was; one of the others takes it away. */
  predicate KeepsWeight(m: Metric) {
    m.Scope? || m.AttackVector? || m.AttackComplexity? || m.UserInteraction?
  }

  lemma {:induction false} PartUpdates(p: Part, m: Metric, weight: real)
    requires GoodPart(p)
    ensures Updated(m, weight, PartText(p)) ==
            if m != p.m then weight
            else if Weight(m, Lower(p.value)).None? && KeepsWeight(m) then weight
            else WeightOf(m, p.value)
  {
    PartNames(p, m);
    hide Names, Weight, Lower;
    if m == p.m {
      LowerLength(p.name);
      assert PartText(p)[|Name(m)|..] == p.value;
    }
  }

  lemma {:induction false} LowerLength(s: string)
    ensures |Lower(s)| == |s|
  {
  }

  /** Where a metric is named, or -1. */
  function PartFor(ps: seq<Part>, m: Metric): (k: int)
    ensures -1 <= k < |ps| && (k >= 0 ==> ps[k].m == m) && (k == -1 ==> forall i :: 0 <= i < |ps| ==> ps[i].m != m)
  {
    if ps == [] then -1 else if ps[|ps| - 1].m == m then |ps| - 1 else PartFor(ps[..|ps| - 1], m)
  }

  /** A metric has the weight of the value that its component gives, and none if it has no
      component or an unknown value. */
  lemma {:induction false} ReadFromParts(ps: seq<Part>, m: Metric)
    requires GoodParts(ps)
    ensures Reading(PartTexts(ps), m) ==
            if PartFor(ps, m) >= 0 then WeightOf(m, ps[PartFor(ps, m)].value) else -1.0
  {
    hide GoodPart, PartText, Updated, WeightOf;
    if ps != [] {
      var n := |ps| - 1;
      ReadFromParts(ps[..n], m);
      assert PartTexts(ps)[..n] == PartTexts(ps[..n]) && PartTexts(ps)[n] == PartText(ps[n]);
      PartUpdates(ps[n], m, Reading(PartTexts(ps[..n]), m));
      if ps[n].m == m {
        assert forall i :: 0 <= i < n ==> ps[..n][i].m != m;
        NoWeight(m, ps[n].value);
      }
    }
  }

  /** The component that decides on a metric, or -1: the last one that names it with a known
      value, or with any value if unknown ones take the weight away. */
  function Deciding(ps: seq<Part>, m: Metric): (k: int)
    ensures -1 <= k < |ps| && (k >= 0 ==> Decides(ps[k], m))
    ensures forall i :: k < i < |ps| ==> !Decides(ps[i], m)
  {
    if ps == [] then -1 else if Decides(ps[|ps| - 1], m) then |ps| - 1 else Deciding(ps[..|ps| - 1], m)
  }

  predicate Decides(p: Part, m: Metric) {
    p.m == m && (Weight(m, Lower(p.value)).Some? || !KeepsWeight(m))
  }

  /** Metrics may be named any number of times: the last deciding component counts. */
  lemma {:induction false} RepeatedParts(ps: seq<Part>, m: Metric)
    requires forall i :: 0 <= i < |ps| ==> GoodPart(ps[i])
    ensures Reading(PartTexts(ps), m) ==
            if Deciding(ps, m) >= 0 then WeightOf(m, ps[Deciding(ps, m)].value) else -1.0
  {
    hide GoodPart, PartText, Updated, WeightOf, KeepsWeight, Weight;
    if ps != [] {
      var n := |ps| - 1;
      RepeatedParts(ps[..n], m);
      assert PartTexts(ps)[..n] == PartTexts(ps[..n]) && PartTexts(ps)[n] == PartText(ps[n]);
      PartUpdates(ps[n], m, Reading(PartTexts(ps[..n]), m));
    }
  }

  lemma {:induction false} NoWeight(m: Metric, value: string)
    ensures Weight(m, Lower(value)).None? ==> WeightOf(m, value) == -1.0
  {
  }

  lemma {:induction false} NoSlash(p: Part)
    requires GoodPart(p)
    ensures '/' !in PartText(p) && PartText(p) != ""
  {
    NameShape(p.m);
    forall i | 0 <= i < |p.name|
      ensures p.name[i] != '/'
    {
      assert Lower(p.name)[i] == ToLower(p.name[i]) == Name(p.m)[i];
    }
  }

  /** The components of a written vector are its parts. */
  lemma {:induction false} VectorPieces(ps: seq<Part>)
    requires GoodParts(ps) && ps != []
    ensures Split(VectorText(ps), '/') == PartTexts(ps)
  {
    hide Pieces, Join, PartText, GoodPart;
    var texts := PartTexts(ps);
    forall i | 0 <= i < |texts|
      ensures '/' !in texts[i] && texts[i] != ""
    {
      NoSlash(ps[i]);
    }
    PiecesOfJoin(texts, '/');
    JoinFront(texts);
  }

  lemma {:induction false} JoinFront(texts: seq<string>)
    requires texts != [] && texts[0] != ""
    ensures Join(texts, "/") != ""
  {
  }

  // -------------------------------------------------------------------- Whole vectors

  /** The eight values of a base vector. */
  datatype Values = Values(av: string, ac: string, pr: string, ui: string, s: string, c: string, i: string, a: string)

  function Parts(v: Values): seq<Part> {
    [Part(AttackVector, "AV:", v.av), Part(AttackComplexity, "AC:", v.ac), Part(PrivilegesRequired, "PR:", v.pr),
     Part(UserInteraction, "UI:", v.ui), Part(Scope, "S:", v.s), Part(Confidentiality, "C:", v.c),
     Part(Integrity, "I:", v.i), Part(Availability, "A:", v.a)]
  }

  predicate Plain(v: Values) {
    && '/' !in v.av && '/' !in v.ac && '/' !in v.pr && '/' !in v.ui
    && '/' !in v.s && '/' !in v.c && '/' !in v.i && '/' !in v.a
  }

  lemma {:induction false} UpperName(s: string, m: Metric)
    requires s == match m
                  case AttackVector => "AV:"
                  case AttackComplexity => "AC:"
                  case PrivilegesRequired => "PR:"
                  case UserInteraction => "UI:"
                  case Scope => "S:"
                  case Confidentiality => "C:"
                  case Integrity => "I:"
                  case Availability => "A:"
    ensures Lower(s) == Name(m)
  {
    var n := Name(m);
    assert |s| == |n|;
    assert ToLower('A') == 'a' && ToLower('V') == 'v' && ToLower('C') == 'c' && ToLower('P') == 'p';
    assert ToLower('R') == 'r' && ToLower('U') == 'u' && ToLower('I') == 'i' && ToLower('S') == 's';
    assert ToLower(':') == ':';
  }

  lemma {:induction false} GoodVector(v: Values)
    requires Plain(v)
    ensures GoodParts(Parts(v))
  {
    UpperName("AV:", AttackVector);
    UpperName("AC:", AttackComplexity);
    UpperName("PR:", PrivilegesRequired);
    UpperName("UI:", UserInteraction);
    UpperName("S:", Scope);
    UpperName("C:", Confidentiality);
    UpperName("I:", Integrity);
    UpperName("A:", Availability);
    hide Lower;
  }

  lemma {:induction false} PartAt(v: Values, m: Metric)
    ensures PartFor(Parts(v), m) >= 0
    ensures Parts(v)[PartFor(Parts(v), m)].value ==
            match m
            case AttackVector => v.av
            case AttackComplexity => v.ac
            case PrivilegesRequired => v.pr
            case UserInteraction => v.ui
            case Scope => v.s
            case Confidentiality => v.c
            case Integrity => v.i
            case Availability => v.a
  {
    hide PartFor;
    var ps := Parts(v);
    assert ps[0].m == AttackVector && ps[1].m == AttackComplexity && ps[2].m == PrivilegesRequired;
    assert ps[3].m == UserInteraction && ps[4].m == Scope && ps[5].m == Confidentiality;
    assert ps[6].m == Integrity && ps[7].m == Availability;
  }

  /** The score of a vector that is written in full is that of the weights of its values. */
  lemma {:induction false} FullVector(v: Values)
    requires Plain(v)
    ensures VectorScore(VectorText(Parts(v))) ==
            Score(Weights(WeightOf(Scope, v.s), WeightOf(Confidentiality, v.c), WeightOf(Integrity, v.i),
                          WeightOf(Availability, v.a), WeightOf(AttackVector, v.av), WeightOf(AttackComplexity, v.ac),
                          WeightOf(PrivilegesRequired, v.pr), WeightOf(UserInteraction, v.ui)))
  {
    hide Score, WeightOf, GoodParts, VectorText, Split, Reading, PartFor, Plain;
    GoodVector(v);
    VectorPieces(Parts(v));
    forall m: Metric
      ensures PartFor(Parts(v), m) >= 0
      ensures Reading(PartTexts(Parts(v)), m) == WeightOf(m, Parts(v)[PartFor(Parts(v), m)].value)
    {
      PartAt(v, m);
      ReadFromParts(Parts(v), m);
    }
    PartAt(v, AttackVector);
    PartAt(v, AttackComplexity);
    PartAt(v, PrivilegesRequired);
    PartAt(v, UserInteraction);
    PartAt(v, Scope);
    PartAt(v, Confidentiality);
    PartAt(v, Integrity);
    PartAt(v, Availability);
  }

  // ------------------------------------------------------------------------ Letters

  /** The weights of the letters, of either case (section 7.4 of the CVSS v3.1
      specification). */
  lemma {:induction false} LetterWeights()
    ensures WeightOf(AttackVector, "N") == 0.85 && WeightOf(AttackVector, "A") == 0.62
    ensures WeightOf(AttackVector, "L") == 0.55 && WeightOf(AttackVector, "P") == 0.2
    ensures WeightOf(AttackComplexity, "L") == 0.77 && WeightOf(AttackComplexity, "H") == 0.44
    ensures WeightOf(PrivilegesRequired, "N") == 0.85 && WeightOf(PrivilegesRequired, "L") == 0.62
    ensures WeightOf(PrivilegesRequired, "H") == 0.27
    ensures WeightOf(UserInteraction, "N") == 0.85 && WeightOf(UserInteraction, "R") == 0.62
    ensures WeightOf(Scope, "U") == 0.0 && WeightOf(Scope, "C") == 1.0
    ensures forall m: Metric :: m == Confidentiality || m == Integrity || m == Availability ==>
              WeightOf(m, "N") == 0.0 && WeightOf(m, "L") == 0.22 && WeightOf(m, "H") == 0.56
  {
    assert Lower("N") == "n" && Lower("A") == "a" && Lower("L") == "l" && Lower("P") == "p";
    assert Lower("H") == "h" && Lower("R") == "r" && Lower("U") == "u" && Lower("C") == "c";
  }

  /** Letters of either case have the same weight. */
  lemma {:induction false} EitherCase(m: Metric, a: string, b: string)
    requires SameLetters(a, b)
    ensures WeightOf(m, a) == WeightOf(m, b)
  {
    SameLower(a, b);
  }

  /** Which letters are worse. */
  predicate Worse(m: Metric, a: string, b: string) {
    match m
    case AttackVector => (a == "N" && b in {"A", "L", "P"}) || (a == "A" && b in {"L", "P"}) || (a == "L" && b == "P")
    case AttackComplexity => a == "L" && b == "H"
    case PrivilegesRequired => (a == "N" && b in {"L", "H"}) || (a == "L" && b == "H")
    case UserInteraction => a == "N" && b == "R"
    case Scope => a == "C" && b == "U"
    case _ => (a == "H" && b in {"L", "N"}) || (a == "L" && b == "N")
  }

  lemma {:induction false} WorseWeighsMore(m: Metric, a: string, b: string)
    requires Worse(m, a, b)
    ensures WeightOf(m, a) > WeightOf(m, b) >= 0.0
  {
    hide WeightOf;
    LetterWeights();
  }

  // --------------------------------------------------------------------- Known scores

  lemma {:induction false} UnchangedScores()
    ensures Score(Weights(0.0, 0.56, 0.22, 0.0, 0.85, 0.77, 0.85, 0.85)) == 8.2
    ensures Score(Weights(0.0, 0.22, 0.22, 0.0, 0.85, 0.77, 0.62, 0.85)) == 5.4
    ensures Score(Weights(0.0, 0.0, 0.0, 0.22, 0.85, 0.77, 0.62, 0.62)) == 3.5
    ensures Score(Weights(0.0, 0.0, 0.22, 0.0, 0.85, 0.77, 0.27, 0.62)) == 2.4
    ensures Score(Weights(0.0, 0.0, 0.0, 0.56, 0.85, 0.77, 0.85, 0.85)) == 7.5
  {
    hide Power;
  }

  lemma {:induction false} MoreUnchangedScores()
    ensures Score(Weights(0.0, 0.0, 0.0, 0.56, 0.55, 0.77, 0.85, 0.62)) == 5.5
    ensures Score(Weights(0.0, 0.0, 0.22, 0.0, 0.55, 0.44, 0.62, 0.85)) == 2.5
    ensures Score(Weights(0.0, 0.56, 0.56, 0.56, 0.62, 0.44, 0.62, 0.62)) == 6.8
    ensures Score(Weights(0.0, 0.56, 0.56, 0.56, 0.2, 0.77, 0.85, 0.85)) == 6.8
    ensures Score(Weights(0.0, 0.56, 0.56, 0.56, 0.85, 0.77, 0.85, 0.85)) == 9.8
  {
    hide Power;
  }

  lemma {:induction false} PowerAdd(x: real, a: nat, b: nat)
    ensures Power(x, a + b) == Power(x, a) * Power(x, b)
  {
    if a > 0 {
      PowerAdd(x, a - 1, b);
    }
  }

  lemma {:induction false} PowerOne(x: real)
    ensures Power(x, 1) == x
  {
    assert Power(x, 0) == 1.0;
  }

  lemma {:induction false} PowerFifteen(x: real, x2: real, x4: real)
    requires x2 == x * x && x4 == x2 * x2
    ensures Power(x, 15) == x * x2 * x4 * (x4 * x4)
  {
    hide Power;
    PowerOne(x);
    PowerAdd(x, 1, 1);
    PowerAdd(x, 2, 2);
    PowerAdd(x, 4, 4);
    PowerAdd(x, 1, 2);
    PowerAdd(x, 3, 4);
    PowerAdd(x, 7, 8);
  }

  lemma {:induction false} ChangedScores()
    ensures Score(Weights(1.0, 0.56, 0.56, 0.0, 0.85, 0.77, 0.85, 0.85)) == 10.0
    ensures Score(Weights(1.0, 0.22, 0.0, 0.0, 0.2, 0.44, 0.27, 0.62)) == 1.8
  {
    hide Power;
    PowerFifteen(0.7864, 0.61842496, 0.3824494311510016);
    PowerFifteen(0.2, 0.04, 0.0016);
  }

  lemma {:induction false} AdjacentScore()
    ensures Score(Weights(1.0, 0.56, 0.0, 0.0, 0.62, 0.77, 0.62, 0.85)) == 6.8
  {
    hide Power;
    PowerFifteen(0.54, 0.2916, 0.08503056);
  }

  lemma {:induction false} LocalScore()
    ensures Score(Weights(1.0, 0.22, 0.22, 0.22, 0.55, 0.77, 0.62, 0.85)) == 6.3
  {
    hide Power;
    PowerFifteen(0.505448, 0.255477680704, 0.065268845337894973935616);
  }

  /** The scores of some vectors that are written in full, among them those that the
      repository gives for v3 vectors. */
  lemma {:induction false} KnownScores()
    ensures VectorScore(VectorText(Parts(Values("N", "L", "N", "N", "C", "H", "H", "N")))) == 10.0
    ensures VectorScore(VectorText(Parts(Values("N", "L", "N", "N", "U", "H", "L", "N")))) == 8.2
    ensures VectorScore(VectorText(Parts(Values("N", "L", "L", "N", "U", "L", "L", "N")))) == 5.4
    ensures VectorScore(VectorText(Parts(Values("N", "L", "L", "R", "U", "N", "N", "L")))) == 3.5
    ensures VectorScore(VectorText(Parts(Values("N", "L", "H", "R", "U", "N", "L", "N")))) == 2.4
    ensures VectorScore(VectorText(Parts(Values("N", "L", "N", "N", "U", "N", "N", "H")))) == 7.5
    ensures VectorScore(VectorText(Parts(Values("L", "L", "N", "R", "U", "N", "N", "H")))) == 5.5
    ensures VectorScore(VectorText(Parts(Values("L", "H", "L", "N", "U", "N", "L", "N")))) == 2.5
    ensures VectorScore(VectorText(Parts(Values("P", "H", "H", "R", "C", "L", "N", "N")))) == 1.8
    ensures VectorScore(VectorText(Parts(Values("A", "L", "L", "N", "C", "H", "N", "N")))) == 6.8
    ensures VectorScore(VectorText(Parts(Values("A", "H", "L", "R", "U", "H", "H", "H")))) == 6.8
    ensures VectorScore(VectorText(Parts(Values("P", "L", "N", "N", "U", "H", "H", "H")))) == 6.8
    ensures VectorScore(VectorText(Parts(Values("N", "L", "N", "N", "U", "H", "H", "H")))) == 9.8
    ensures VectorScore(VectorText(Parts(Values("L", "L", "L", "N", "C", "L", "L", "L")))) == 6.3
  {
    LetterWeights();
    hide WeightOf, Score, VectorScore, VectorText;
    FullVector(Values("N", "L", "N", "N", "C", "H", "H", "N"));
    FullVector(Values("N", "L", "N", "N", "U", "H", "L", "N"));
    FullVector(Values("N", "L", "L", "N", "U", "L", "L", "N"));
    FullVector(Values("N", "L", "L", "R", "U", "N", "N", "L"));
    FullVector(Values("N", "L", "H", "R", "U", "N", "L", "N"));
    FullVector(Values("N", "L", "N", "N", "U", "N", "N", "H"));
    FullVector(Values("L", "L", "N", "R", "U", "N", "N", "H"));
    FullVector(Values("L", "H", "L", "N", "U", "N", "L", "N"));
    FullVector(Values("P", "H", "H", "R", "C", "L", "N", "N"));
    FullVector(Values("A", "L", "L", "N", "C", "H", "N", "N"));
    FullVector(Values("A", "H", "L", "R", "U", "H", "H", "H"));
    FullVector(Values("P", "L", "N", "N", "U", "H", "H", "H"));
    FullVector(Values("N", "L", "N", "N", "U", "H", "H", "H"));
    FullVector(Values("L", "L", "L", "N", "C", "L", "L", "L"));
    UnchangedScores();
    MoreUnchangedScores();
    ChangedScores();
    AdjacentScore();
    LocalScore();
  }
}
