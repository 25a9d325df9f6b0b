/**
 The CVSS v3 base score, over the reals: Appendix A and sections 7.1 and 7.4 of the
 CVSS v3.1 specification.
 */
module Cvss {
  import opened Text

  // --------------------------------------------------------------------- Rounding

  /** round: to the nearest integer, halves away from zero. */
  function Round(x: real): int {
    if x >= 0.0 then (x + 0.5).Floor else -(0.5 - x).Floor
  }

  /** The division of C, which truncates. */
  function Quotient(a: int, b: int): int
    requires b > 0
  {
    if a >= 0 then a / b else -(-a / b)
  }

  /** The score rounded to five decimals, in units of the fifth decimal. */
  function Trim(score: real): int {
    Round(score * 100000.0)
  }

  /** It is the nearest whole number of units. */
  lemma {:induction false} TrimIsNearest(score: real)
    ensures -0.5 <= Trim(score) as real - score * 100000.0 <= 0.5
  {
  }

  function RoundUp(score: real): real {
    var trim := Trim(score);
    if trim % 10000 == 0 then trim as real / 100000.0
    else (Quotient(trim, 10000) + 1) as real / 10.0
  }

  /** k tenths are the least number of tenths that is not below the units. */
  predicate LeastTenth(k: int, units: int) {
    k * 10000 >= units && (k - 1) * 10000 < units
  }

  /** A trimmed score is rounded up to the next tenth if and only if it is not a
      negative number between two tenths. */
  lemma {:induction false} RoundUpIsLeastTenth(score: real, k: int)
    requires RoundUp(score) == k as real / 10.0
    ensures LeastTenth(k, Trim(score)) <==> Trim(score) >= 0 || Trim(score) % 10000 == 0
  {
    var trim := Trim(score);
    if trim % 10000 == 0 {
      assert trim == 10000 * (trim / 10000);
      assert k as real == trim as real / 10000.0;
      assert k == trim / 10000;
    } else {
      assert k == Quotient(trim, 10000) + 1;
    }
  }

  /** A negative number between two tenths is rounded too far. */
  lemma {:induction false} RoundUpOfNegative()
    ensures RoundUp(-0.05) == 0.1 && !LeastTenth(1, Trim(-0.05))
  {
    assert -0.05 * 100000.0 == -5000.0;
    assert (0.5 - -5000.0).Floor == 5000;
    assert Trim(-0.05) == -5000;
  }

  /** The result is a whole number of tenths. */
  lemma {:induction false} RoundUpIsTenths(score: real) returns (k: int)
    ensures RoundUp(score) == k as real / 10.0
  {
    var trim := Trim(score);
    k := if trim % 10000 == 0 then trim / 10000 else Quotient(trim, 10000) + 1;
    if trim % 10000 == 0 {
      assert trim == 10000 * k;
      assert trim as real == 10000.0 * k as real;
    }
  }

  lemma {:induction false} TrimMonotone(x: real, y: real)
    requires 0.0 <= x <= y
    ensures 0 <= Trim(x) <= Trim(y)
  {
    assert 0.0 <= x * 100000.0 <= y * 100000.0;
  }

  lemma {:induction false} RoundUpMonotone(x: real, y: real)
    requires 0.0 <= x <= y
    ensures RoundUp(x) <= RoundUp(y)
  {
    hide RoundUp, Trim;
    TrimMonotone(x, y);
    var j := RoundUpIsTenths(x);
    var k := RoundUpIsTenths(y);
    RoundUpIsLeastTenth(x, j);
    RoundUpIsLeastTenth(y, k);
    assert j <= k;
  }

  lemma {:induction false} TrimOfTenths(k: nat)
    ensures Trim(k as real / 10.0) == 10000 * k
  {
    assert k as real / 10.0 * 100000.0 == (10000 * k) as real;
    assert ((10000 * k) as real + 0.5).Floor == 10000 * k;
  }

  /** A whole number of tenths is not changed. */
  lemma {:induction false} RoundUpOfTenths(k: nat)
    ensures RoundUp(k as real / 10.0) == k as real / 10.0
  {
    hide Trim;
    TrimOfTenths(k);
  }

  lemma {:induction false} RoundUpTwice(score: real)
    requires score >= 0.0
    ensures RoundUp(RoundUp(score)) == RoundUp(score)
  {
    hide RoundUp, Trim;
    TrimMonotone(0.0, score);
    var k := RoundUpIsTenths(score);
    RoundUpIsLeastTenth(score, k);
    assert k >= 0;
    RoundUpOfTenths(k);
  }

  // ---------------------------------------------------------------------- Metrics

  datatype Metric =
    | Scope | Confidentiality | Integrity | Availability
    | AttackVector | AttackComplexity | PrivilegesRequired | UserInteraction

  /** The name of a metric in a vector, in lower case. */
  function Name(m: Metric): string {
    match m
    case Scope => "s:"
    case Confidentiality => "c:"
    case Integrity => "i:"
    case Availability => "a:"
    case AttackVector => "av:"
    case AttackComplexity => "ac:"
    case PrivilegesRequired => "pr:"
    case UserInteraction => "ui:"
  }

  /** The weight of a value, in lower case. For the scope: whether it is changed. */
  function Weight(m: Metric, value: string): Option<real> {
    match m
    case Scope => if value == "u" then Some(0.0) else if value == "c" then Some(1.0) else None
    case Confidentiality => ImpactWeight(value)
    case Integrity => ImpactWeight(value)
    case Availability => ImpactWeight(value)
    case AttackVector =>
      if value == "n" then Some(0.85) else if value == "a" then Some(0.62)
      else if value == "l" then Some(0.55) else if value == "p" then Some(0.2) else None
    case AttackComplexity => if value == "l" then Some(0.77) else if value == "h" then Some(0.44) else None
    case PrivilegesRequired =>
      if value == "n" then Some(0.85) else if value == "l" then Some(0.62)
      else if value == "h" then Some(0.27) else None
    case UserInteraction => if value == "n" then Some(0.85) else if value == "r" then Some(0.62) else None
  }

  function ImpactWeight(value: string): Option<real> {
    if value == "n" then Some(0.0) else if value == "l" then Some(0.22) else if value == "h" then Some(0.56) else None
  }

  /** An unknown value clears these metrics and leaves the others alone. */
  predicate Clears(m: Metric) {
    m.Confidentiality? || m.Integrity? || m.Availability? || m.PrivilegesRequired?
  }

  predicate Names(component: string, m: Metric) {
    |component| >= |Name(m)| && Lower(component[..|Name(m)|]) == Name(m)
  }

  /** What a component makes of the weight of a metric. */
  function Updated(m: Metric, weight: real, component: string): real {
    if !Names(component, m) then weight
    else
      var w := Weight(m, Lower(component[|Name(m)|..]));
      if w.Some? then w.value else if Clears(m) then -1.0 else weight
  }

  /** The weight of a metric after the components of a vector. */
  function Reading(components: seq<string>, m: Metric): real {
    if components == [] then -1.0
    else Updated(m, Reading(components[..|components| - 1], m), components[|components| - 1])
  }

  // ------------------------------------------------------------------------ Score

  datatype Weights = Weights(scope: real, conf: real, integ: real, avail: real,
                             vector: real, complexity: real, privilege: real, user: real)

  predicate Complete(w: Weights) {
    && w.scope != -1.0 && w.conf != -1.0 && w.integ != -1.0 && w.avail != -1.0
    && w.vector != -1.0 && w.complexity != -1.0 && w.privilege != -1.0 && w.user != -1.0
  }

  function Power(x: real, n: nat): real {
    if n == 0 then 1.0 else x * Power(x, n - 1)
  }

  function Isc(conf: real, integ: real, avail: real): real {
    1.0 - (1.0 - conf) * (1.0 - integ) * (1.0 - avail)
  }

  function IscBase(w: Weights): real {
    Isc(w.conf, w.integ, w.avail)
  }

  /** The product of four weights. */
  function Product(a: real, b: real, c: real, d: real): real {
    a * b * c * d
  }

  function ImpactOf(changed: bool, isc: real): real {
    if changed then 7.52 * (isc - 0.029) - 3.25 * Power(isc - 0.02, 15) else 6.42 * isc
  }

  /** The weight of the required privileges depends on the scope. */
  function Privilege(changed: bool, privilege: real): real {
    if changed && privilege == 0.62 then 0.68
    else if changed && privilege == 0.27 then 0.5
    else privilege
  }

  function Exploitability(w: Weights): real {
    Product(8.22 * w.vector, w.complexity, Privilege(w.scope != 0.0, w.privilege), w.user)
  }

  function Total(changed: bool, impact: real, exploitability: real): real {
    if changed then 1.08 * (impact + exploitability) else impact + exploitability
  }

  function Final(base: real): real {
    if base > 10.0 then 10.0 else RoundUp(base)
  }

  function Score(w: Weights): real {
    if !Complete(w) then -1.0
    else
      var impact := ImpactOf(w.scope != 0.0, IscBase(w));
      if impact <= 0.0 then 0.0 else Final(Total(w.scope != 0.0, impact, Exploitability(w)))
  }

  function WeightsOf(components: seq<string>): Weights {
    Weights(Reading(components, Scope), Reading(components, Confidentiality),
            Reading(components, Integrity), Reading(components, Availability),
            Reading(components, AttackVector), Reading(components, AttackComplexity),
            Reading(components, PrivilegesRequired), Reading(components, UserInteraction))
  }

  /** The score of a vector without its prefix. */
  function VectorScore(vector: string): real {
    Score(WeightsOf(Split(vector, '/')))
  }

  // --------------------------------------------------------------------- The loop

  /** strncasecmp of a metric name with the start of a component. */
  method StartsWith(component: string, m: Metric) returns (r: bool)
    ensures r == Names(component, m)
  {
    r := |component| >= |Name(m)| && Lower(component[..|Name(m)|]) == Name(m);
  }

  method V3Impact(value: string) returns (weight: real)
    ensures weight == if ImpactWeight(Lower(value)).Some? then ImpactWeight(Lower(value)).value else -1.0
  {
    var v := Lower(value);
    if v == "n" {
      return 0.0;
    }
    if v == "l" {
      return 0.22;
    }
    if v == "h" {
      return 0.56;
    }
    return -1.0;
  }

  method ScopeAfter(old_: int, c: string) returns (changed: int)
    ensures changed as real == Updated(Scope, old_ as real, c)
  {
    changed := old_;
    var named := StartsWith(c, Scope);
    if named {
      var v := Lower(c[2..]);
      if v == "u" {
        changed := 0;
      } else if v == "c" {
        changed := 1;
      }
    }
  }

  method ImpactAfter(m: Metric, old_: real, c: string) returns (weight: real)
    requires m.Confidentiality? || m.Integrity? || m.Availability?
    ensures weight == Updated(m, old_, c)
  {
    weight := old_;
    var named := StartsWith(c, m);
    if named {
      weight := V3Impact(c[2..]);
    }
  }

  method AttackAfter(vector0: real, complexity0: real, c: string) returns (vector: real, complexity: real)
    ensures vector == Updated(AttackVector, vector0, c)
    ensures complexity == Updated(AttackComplexity, complexity0, c)
  {
    vector, complexity := vector0, complexity0;
    var named := StartsWith(c, AttackVector);
    if named {
      var v := Lower(c[3..]);
      if v == "n" {
        vector := 0.85;
      } else if v == "a" {
        vector := 0.62;
      } else if v == "l" {
        vector := 0.55;
      } else if v == "p" {
        vector := 0.2;
      }
    }
    named := StartsWith(c, AttackComplexity);
    if named {
      var v := Lower(c[3..]);
      if v == "l" {
        complexity := 0.77;
      } else if v == "h" {
        complexity := 0.44;
      }
    }
  }

  method AccessAfter(privilege0: real, user0: real, c: string) returns (privilege: real, user: real)
    ensures privilege == Updated(PrivilegesRequired, privilege0, c)
    ensures user == Updated(UserInteraction, user0, c)
  {
    privilege, user := privilege0, user0;
    var named := StartsWith(c, PrivilegesRequired);
    if named {
      var v := Lower(c[3..]);
      if v == "n" {
        privilege := 0.85;
      } else if v == "l" {
        privilege := 0.62;
      } else if v == "h" {
        privilege := 0.27;
      } else {
        privilege := -1.0;
      }
    }
    named := StartsWith(c, UserInteraction);
    if named {
      var v := Lower(c[3..]);
      if v == "n" {
        user := 0.85;
      } else if v == "r" {
        user := 0.62;
      }
    }
  }

  lemma {:induction false} ReadingStep(components: seq<string>, i: nat, m: Metric)
    requires i < |components|
    ensures Reading(components[..i + 1], m) == Updated(m, Reading(components[..i], m), components[i])
  {
    assert components[..i + 1][..i] == components[..i];
  }

  /** The weights after the components up to i. */
  predicate ReadUpTo(components: seq<string>, i: nat, w: Weights)
    requires i <= |components|
  {
    w == WeightsOf(components[..i])
  }

  lemma {:induction false} WeightsStep(components: seq<string>, i: nat)
    requires i < |components|
    ensures var c, w := components[i], WeightsOf(components[..i]);
            WeightsOf(components[..i + 1]) == Weights(
              Updated(Scope, w.scope, c), Updated(Confidentiality, w.conf, c),
              Updated(Integrity, w.integ, c), Updated(Availability, w.avail, c),
              Updated(AttackVector, w.vector, c), Updated(AttackComplexity, w.complexity, c),
              Updated(PrivilegesRequired, w.privilege, c), Updated(UserInteraction, w.user, c))
  {
    hide Updated;
    forall m: Metric
      ensures Reading(components[..i + 1], m) == Updated(m, Reading(components[..i], m), components[i])
    {
      ReadingStep(components, i, m);
    }
  }

  /** The score of a vector without its prefix. */
  method ScoreFromBaseMetrics(vectorString: string) returns (score: real)
    ensures score == VectorScore(vectorString)
  {
    hide Updated, Split;
    var scopeChanged := -1;
    var conf, integ, avail := -1.0, -1.0, -1.0;
    var vector, complexity, privilege, user := -1.0, -1.0, -1.0, -1.0;
    var split := Split(vectorString, '/');
    for i := 0 to |split|
      invariant ReadUpTo(split, i,
                         Weights(scopeChanged as real, conf, integ, avail, vector, complexity, privilege, user))
    {
      WeightsStep(split, i);
      scopeChanged := ScopeAfter(scopeChanged, split[i]);
      conf := ImpactAfter(Confidentiality, conf, split[i]);
      integ := ImpactAfter(Integrity, integ, split[i]);
      avail := ImpactAfter(Availability, avail, split[i]);
      vector, complexity := AttackAfter(vector, complexity, split[i]);
      privilege, user := AccessAfter(privilege, user, split[i]);
    }
    assert split[..|split|] == split;
    score := FinalScore(scopeChanged, conf, integ, avail, vector, complexity, privilege, user);
  }

  /** The part behind the loop. */
  method FinalScore(scopeChanged: int, conf: real, integ: real, avail: real,
                    vector: real, complexity: real, privilege0: real, user: real) returns (score: real)
    ensures score == Score(Weights(scopeChanged as real, conf, integ, avail, vector, complexity, privilege0, user))
  {
    hide RoundUp, Power;
    ghost var w := Weights(scopeChanged as real, conf, integ, avail, vector, complexity, privilege0, user);
    if scopeChanged == -1 || conf == -1.0 || integ == -1.0 || avail == -1.0
       || vector == -1.0 || complexity == -1.0 || privilege0 == -1.0 || user == -1.0 {
      return -1.0;
    }
    var privilege := privilege0;
    if scopeChanged != 0 && privilege == 0.62 {
      privilege := 0.68;
    } else if scopeChanged != 0 && privilege == 0.27 {
      privilege := 0.5;
    }
    var iscBase := 1.0 - (1.0 - conf) * (1.0 - integ) * (1.0 - avail);
    var impact;
    if scopeChanged != 0 {
      impact := 7.52 * (iscBase - 0.029) - 3.25 * Power(iscBase - 0.02, 15);
    } else {
      impact := 6.42 * iscBase;
    }
    assert impact == ImpactOf(scopeChanged != 0, iscBase);
    assert iscBase == IscBase(w) && (scopeChanged != 0 <==> w.scope != 0.0);
    if impact <= 0.0 {
      return 0.0;
    }
    var exploitability := 8.22 * vector * complexity * privilege * user;
    assert exploitability == Exploitability(w);
    var base;
    if scopeChanged != 0 {
      base := 1.08 * (impact + exploitability);
    } else {
      base := impact + exploitability;
    }
    if base > 10.0 {
      return 10.0;
    }
    return RoundUp(base);
  }

  // ------------------------------------------------------------------ Permutation

  /** The components that name a metric. */
  function Naming(components: seq<string>, m: Metric): seq<string> {
    if components == [] then []
    else
      var front, last := Naming(components[..|components| - 1], m), components[|components| - 1];
      if Names(last, m) then front + [last] else front
  }

  lemma {:induction false} ReadingOfNaming(components: seq<string>, m: Metric)
    ensures Reading(components, m) == Reading(Naming(components, m), m)
  {
    hide Names;
    if components != [] {
      var front, last := components[..|components| - 1], components[|components| - 1];
      ReadingOfNaming(front, m);
      var named := Naming(components, m);
      if Names(last, m) {
        assert named[..|named| - 1] == Naming(front, m);
      }
    }
  }

  lemma {:induction false} NamingCount(components: seq<string>, m: Metric, c: string)
    ensures multiset(Naming(components, m))[c] == if Names(c, m) then multiset(components)[c] else 0
  {
    hide Names;
    if components != [] {
      var front, last := components[..|components| - 1], components[|components| - 1];
      NamingCount(front, m, c);
      assert components == front + [last];
    }
  }

  lemma {:induction false} NamingOfPermutation(a: seq<string>, b: seq<string>, m: Metric)
    requires multiset(a) == multiset(b) && |Naming(a, m)| <= 1
    ensures Naming(a, m) == Naming(b, m)
  {
    hide Naming, Names;
    var x, y := Naming(a, m), Naming(b, m);
    forall c: string
      ensures multiset(x)[c] == multiset(y)[c]
    {
      NamingCount(a, m, c);
      NamingCount(b, m, c);
    }
    assert multiset(x) == multiset(y);
    assert |x| == |multiset(x)| == |multiset(y)| == |y|;
    if |x| == 1 {
      assert x[0] in multiset(y);
    }
  }

  /** Permuting the components of a vector does not change its score, if every metric is
      named at most once. */
  lemma {:induction false} ScoreOfPermutation(v: string, w: string)
    requires multiset(Split(v, '/')) == multiset(Split(w, '/'))
    requires forall m: Metric :: |Naming(Split(v, '/'), m)| <= 1
    ensures VectorScore(v) == VectorScore(w)
  {
    hide Split, Score, Naming, Reading;
    var a, b := Split(v, '/'), Split(w, '/');
    forall m: Metric
      ensures Reading(a, m) == Reading(b, m)
    {
      NamingOfPermutation(a, b, m);
      ReadingOfNaming(a, m);
      ReadingOfNaming(b, m);
    }
    assert WeightsOf(a) == WeightsOf(b);
  }

  // ------------------------------------------------------------------------ Range

  predicate InTable(m: Metric, weight: real) {
    match m
    case Scope => weight == 0.0 || weight == 1.0
    case Confidentiality => weight == 0.0 || weight == 0.22 || weight == 0.56
    case Integrity => weight == 0.0 || weight == 0.22 || weight == 0.56
    case Availability => weight == 0.0 || weight == 0.22 || weight == 0.56
    case AttackVector => weight == 0.85 || weight == 0.62 || weight == 0.55 || weight == 0.2
    case AttackComplexity => weight == 0.77 || weight == 0.44
    case PrivilegesRequired => weight == 0.85 || weight == 0.62 || weight == 0.27
    case UserInteraction => weight == 0.85 || weight == 0.62
  }

  lemma {:induction false} ReadingInTable(components: seq<string>, m: Metric)
    ensures Reading(components, m) == -1.0 || InTable(m, Reading(components, m))
  {
    if components != [] {
      ReadingInTable(components[..|components| - 1], m);
    }
  }

  /** The weights of a complete vector. */
  predicate Sound(w: Weights) {
    && InTable(Scope, w.scope) && InTable(Confidentiality, w.conf) && InTable(Integrity, w.integ)
    && InTable(Availability, w.avail) && InTable(AttackVector, w.vector) && InTable(AttackComplexity, w.complexity)
    && InTable(PrivilegesRequired, w.privilege) && InTable(UserInteraction, w.user)
  }

  lemma {:induction false} CompleteIsSound(components: seq<string>)
    requires Complete(WeightsOf(components))
    ensures Sound(WeightsOf(components))
  {
    hide Reading, InTable;
    forall m: Metric
      ensures Reading(components, m) == -1.0 || InTable(m, Reading(components, m))
    {
      ReadingInTable(components, m);
    }
  }

  lemma {:induction false} TimesMonotone(a: real, b: real, c: real, d: real)
    requires 0.0 <= a <= c && 0.0 <= b <= d
    ensures 0.0 <= a * b <= c * d
  {
    assert a * b <= c * b && c * b <= c * d;
  }

  /** The order in which higher weights and a changed scope are worse. */
  predicate NotWorse(v: Weights, w: Weights) {
    && v.scope <= w.scope && v.conf <= w.conf && v.integ <= w.integ && v.avail <= w.avail
    && v.vector <= w.vector && v.complexity <= w.complexity && v.privilege <= w.privilege && v.user <= w.user
  }

  lemma {:induction false} ProductMonotone(a: real, b: real, c: real, d: real, e: real, f: real, g: real, h: real)
    requires 0.0 <= a <= e && 0.0 <= b <= f && 0.0 <= c <= g && 0.0 <= d <= h
    ensures 0.0 <= Product(a, b, c, d) <= Product(e, f, g, h)
  {
    TimesMonotone(a, b, e, f);
    TimesMonotone(a * b, c, e * f, g);
    TimesMonotone(a * b * c, d, e * f * g, h);
  }

  lemma {:induction false} PrivilegeMonotone(before: bool, after: bool, p: real, q: real)
    requires InTable(PrivilegesRequired, p) && InTable(PrivilegesRequired, q) && p <= q && (before ==> after)
    ensures 0.0 <= Privilege(before, p) <= Privilege(after, q)
  {
  }

  lemma {:induction false} NotNegative(w: Weights)
    requires Sound(w)
    ensures 0.0 <= w.vector && 0.0 <= w.complexity && 0.0 <= w.user
    ensures 0.0 <= w.conf <= 1.0 && 0.0 <= w.integ <= 1.0 && 0.0 <= w.avail <= 1.0
  {
  }

  lemma {:induction false} ScopeMonotone(v: Weights, w: Weights)
    requires Sound(v) && Sound(w) && NotWorse(v, w)
    ensures v.scope != 0.0 ==> w.scope != 0.0
  {
  }

  lemma {:induction false} ExploitabilityMonotone(v: Weights, w: Weights)
    requires Sound(v) && Sound(w) && NotWorse(v, w)
    ensures 0.0 <= Exploitability(v) <= Exploitability(w)
  {
    hide InTable, Product, Privilege;
    var before, after := v.scope != 0.0, w.scope != 0.0;
    NotNegative(v);
    ScopeMonotone(v, w);
    PrivilegeMonotone(before, after, v.privilege, w.privilege);
    TimesMonotone(8.22, v.vector, 8.22, w.vector);
    ProductMonotone(8.22 * v.vector, v.complexity, Privilege(before, v.privilege), v.user,
                    8.22 * w.vector, w.complexity, Privilege(after, w.privilege), w.user);
  }

  lemma {:induction false} IscBaseMonotone(v: Weights, w: Weights)
    requires Sound(v) && Sound(w) && NotWorse(v, w)
    ensures 0.0 <= IscBase(v) <= IscBase(w) <= 1.0
  {
    hide InTable;
    NotNegative(v);
    NotNegative(w);
    IscMonotone(v.conf, v.integ, v.avail, w.conf, w.integ, w.avail);
  }

  lemma {:induction false} IscMonotone(a: real, b: real, c: real, d: real, e: real, f: real)
    requires 0.0 <= a <= d <= 1.0 && 0.0 <= b <= e <= 1.0 && 0.0 <= c <= f <= 1.0
    ensures 0.0 <= Isc(a, b, c) <= Isc(d, e, f) <= 1.0
  {
    var k, l, m := 1.0 - d, 1.0 - e, 1.0 - f;
    var n, o, p := 1.0 - a, 1.0 - b, 1.0 - c;
    TimesMonotone(k, l, n, o);
    TimesMonotone(k * l, m, n * o, p);
    TimesMonotone(n, o, 1.0, 1.0);
    TimesMonotone(n * o, p, 1.0, 1.0);
  }

  lemma {:induction false} FinalRange(base: real) returns (k: nat)
    requires base >= 0.0
    ensures k <= 100 && Final(base) == k as real / 10.0
    ensures base >= 0.1 ==> k >= 1
  {
    hide RoundUp, Trim;
    if base > 10.0 {
      k := 100;
    } else {
      var j := RoundUpIsTenths(base);
      TrimMonotone(0.0, base);
      TrimMonotone(base, 10.0);
      TrimOfTenths(100);
      RoundUpIsLeastTenth(base, j);
      if base >= 0.1 {
        TrimMonotone(0.1, base);
        TrimOfTenths(1);
      }
      k := j;
    }
  }

  lemma {:induction false} FinalMonotone(x: real, y: real)
    requires 0.0 <= x <= y
    ensures Final(x) <= Final(y)
  {
    hide RoundUp;
    if y <= 10.0 {
      RoundUpMonotone(x, y);
    } else {
      var k := FinalRange(x);
      assert k as real <= 100.0;
    }
  }

  /** The score of sound weights. */
  lemma {:induction false} SoundRange(w: Weights) returns (k: nat)
    requires Sound(w)
    ensures k <= 100 && Score(w) == k as real / 10.0
  {
    hide Final, ImpactOf, Exploitability;
    var impact := ImpactOf(w.scope != 0.0, IscBase(w));
    if impact <= 0.0 {
      k := 0;
    } else {
      ExploitabilityMonotone(w, w);
      k := FinalRange(Total(w.scope != 0.0, impact, Exploitability(w)));
    }
  }

  /** A score of this many tenths. */
  predicate IsTenths(score: real, k: nat) {
    k <= 100 && score == k as real / 10.0
  }

  /** Every vector has the score -1, exactly if a metric is missing, or a whole number of
      tenths from 0 to 10. */
  lemma {:induction false} ScoreRange(vector: string)
    ensures if Complete(WeightsOf(Split(vector, '/'))) then exists k: nat :: IsTenths(VectorScore(vector), k)
            else VectorScore(vector) == -1.0
  {
    hide Split, Reading, Sound;
    var w := WeightsOf(Split(vector, '/'));
    if Complete(w) {
      CompleteIsSound(Split(vector, '/'));
      var k := SoundRange(w);
      assert IsTenths(VectorScore(vector), k);
    }
  }

  // --------------------------------------------------------------- Zero and order

  lemma {:induction false} PowerBound(x: real, n: nat)
    requires 0.0 <= x <= 1.0
    ensures 0.0 <= Power(x, n) <= 1.0 && (n >= 1 ==> Power(x, n) <= x)
  {
    if n > 0 {
      PowerBound(x, n - 1);
      TimesMonotone(x, Power(x, n - 1), x, 1.0);
    }
  }

  lemma {:induction false} PowerOfNegative(x: real, n: nat)
    requires -1.0 <= x <= 0.0
    ensures n % 2 == 1 ==> x <= Power(x, n) <= 0.0
    ensures n % 2 == 0 ==> 0.0 <= Power(x, n) <= 1.0
  {
    if n > 0 {
      PowerOfNegative(x, n - 1);
      if n % 2 == 1 {
        TimesMonotone(-x, Power(x, n - 1), -x, 1.0);
      } else {
        TimesMonotone(-x, -Power(x, n - 1), 1.0, 1.0);
      }
    }
  }

  lemma {:induction false} ImpactAtLeast(w: Weights)
    requires Sound(w) && (w.conf != 0.0 || w.integ != 0.0 || w.avail != 0.0)
    ensures 0.22 <= IscBase(w) <= 1.0
  {
    hide Isc;
    NotNegative(w);
    var c := if w.conf == 0.0 then 0.0 else 0.22;
    var i := if w.integ == 0.0 then 0.0 else 0.22;
    var a := if w.avail == 0.0 then 0.0 else 0.22;
    IscMonotone(c, i, a, w.conf, w.integ, w.avail);
    if c != 0.0 {
      IscMonotone(0.22, 0.0, 0.0, c, i, a);
    } else if i != 0.0 {
      IscMonotone(0.0, 0.22, 0.0, c, i, a);
    } else {
      IscMonotone(0.0, 0.0, 0.22, c, i, a);
    }
    OneImpact();
  }

  lemma {:induction false} OneImpact()
    ensures Isc(0.22, 0.0, 0.0) == Isc(0.0, 0.22, 0.0) == Isc(0.0, 0.0, 0.22) == 0.22
  {
  }

  /** The impact is positive exactly if one of the three impact metrics is not "none",
      and then it is at least one half. */
  lemma {:induction false} ImpactPositive(w: Weights)
    requires Sound(w)
    ensures var impact := ImpactOf(w.scope != 0.0, IscBase(w));
            if w.conf == 0.0 && w.integ == 0.0 && w.avail == 0.0 then impact <= 0.0 else impact >= 0.5
  {
    hide Power;
    hide InTable;
    var isc := IscBase(w);
    NotNegative(w);
    if w.conf == 0.0 && w.integ == 0.0 && w.avail == 0.0 {
      assert isc == 0.0;
      PowerOfNegative(-0.02, 15);
    } else {
      ImpactAtLeast(w);
      PowerBound(isc - 0.02, 15);
    }
  }

  /** A complete vector has the score 0 exactly if it has no impact. */
  lemma {:induction false} ScoreZero(w: Weights)
    requires Sound(w)
    ensures Score(w) == 0.0 <==> w.conf == 0.0 && w.integ == 0.0 && w.avail == 0.0
  {
    hide Final, ImpactOf, Exploitability, IscBase;
    ImpactPositive(w);
    var impact := ImpactOf(w.scope != 0.0, IscBase(w));
    if impact > 0.0 {
      ExploitabilityMonotone(w, w);
      var k := FinalRange(Total(w.scope != 0.0, impact, Exploitability(w)));
    }
  }

  lemma {:induction false} PowerMonotone(x: real, y: real, n: nat)
    requires 0.0 <= x <= y
    ensures 0.0 <= Power(x, n) <= Power(y, n)
  {
    if n > 0 {
      PowerMonotone(x, y, n - 1);
      TimesMonotone(x, Power(x, n - 1), y, Power(y, n - 1));
    }
  }

  /** A bound on the slope of the n-th power up to b. */
  function Slope(b: real, n: nat): real {
    if n == 0 then 0.0 else b * Slope(b, n - 1) + Power(b, n - 1)
  }

  lemma {:induction false} PowerSlope(x: real, y: real, b: real, n: nat)
    requires 0.0 <= x <= y <= b
    ensures 0.0 <= Slope(b, n)
    ensures Power(y, n) - Power(x, n) <= Slope(b, n) * (y - x)
  {
    if n > 0 {
      PowerSlope(x, y, b, n - 1);
      PowerMonotone(x, b, n - 1);
      PowerMonotone(x, y, n - 1);
      var d, s, p := Power(y, n - 1) - Power(x, n - 1), Slope(b, n - 1), Power(x, n - 1);
      assert Power(y, n) - Power(x, n) == y * d + p * (y - x);
      TimesMonotone(y, d, b, s * (y - x));
      TimesMonotone(p, y - x, Power(b, n - 1), y - x);
      TimesMonotone(0.0, 0.0, b, s);
      assert b * (s * (y - x)) == b * s * (y - x);
    }
  }

  lemma {:induction false} SlopeIs(b: real, n: nat)
    ensures Slope(b, n + 1) == (n + 1) as real * Power(b, n)
  {
    if n > 0 {
      SlopeIs(b, n - 1);
      assert b * (n as real * Power(b, n - 1)) == n as real * Power(b, n);
    }
  }

  lemma {:induction false} PowerConstants()
    ensures Power(0.83, 14) <= 0.08 && Power(0.895, 15) <= 0.19 && Power(0.828, 15) >= 0.05
    ensures Power(0.6, 14) <= 0.01 && Power(0.895, 14) <= 0.22
  {
  }

  lemma {:induction false} FifteenthPowerBelow(y: real, b: real, k: real)
    requires 0.0 <= y <= b && Power(b, 14) <= k
    ensures Power(y, 15) <= k * y
  {
    hide Power;
    FifteenthPower(y);
    PowerMonotone(y, b, 14);
    TimesMonotone(y, Power(y, 14), y, k);
  }

  /** A changed scope does not lower the impact. */
  lemma {:induction false} ChangedScopeImpact(x: real)
    requires 0.22 <= x <= 0.914816
    ensures ImpactOf(false, x) <= ImpactOf(true, x)
  {
    hide Power;
    var y := x - 0.02;
    PowerConstants();
    if y <= 0.6 {
      FifteenthPowerBelow(y, 0.6, 0.01);
    } else {
      FifteenthPowerBelow(y, 0.895, 0.22);
    }
  }

  lemma {:induction false} FifteenthPower(x: real)
    ensures Power(x, 15) == x * Power(x, 14)
  {
  }

  /** Below the highest impact, the impact with a changed scope grows with the sum. */
  lemma {:induction false} ChangedImpactMonotone(x: real, y: real)
    requires 0.02 <= x <= y <= 0.85
    ensures ImpactOf(true, x) <= ImpactOf(true, y)
  {
    hide Power, Slope;
    PowerSlope(x - 0.02, y - 0.02, 0.83, 15);
    SlopeIs(0.83, 14);
    PowerConstants();
    TimesMonotone(Slope(0.83, 15), y - x, 1.2, y - x);
  }

  /** The highest impact is above the others, although the impact is not increasing. */
  lemma {:induction false} HighestChangedImpact()
    ensures ImpactOf(true, 0.848992) <= ImpactOf(true, 0.914816)
  {
    hide Power;
    PowerMonotone(0.914816 - 0.02, 0.895, 15);
    PowerMonotone(0.828, 0.848992 - 0.02, 15);
    PowerConstants();
  }

  lemma {:induction false} HighestIsc(w: Weights)
    requires Sound(w)
    ensures IscBase(w) == 0.914816 || IscBase(w) <= 0.848992
    ensures IscBase(w) == 0.914816 <==> w.conf == w.integ == w.avail == 0.56
  {
    hide Isc;
    NotNegative(w);
    if w.conf < 0.56 {
      IscMonotone(w.conf, w.integ, w.avail, 0.22, 0.56, 0.56);
    } else if w.integ < 0.56 {
      IscMonotone(w.conf, w.integ, w.avail, 0.56, 0.22, 0.56);
    } else if w.avail < 0.56 {
      IscMonotone(w.conf, w.integ, w.avail, 0.56, 0.56, 0.22);
    }
    HighestConstants();
  }

  lemma {:induction false} HighestConstants()
    ensures Isc(0.22, 0.56, 0.56) == Isc(0.56, 0.22, 0.56) == Isc(0.56, 0.56, 0.22) == 0.848992
    ensures Isc(0.56, 0.56, 0.56) == 0.914816
  {
  }

  /** The impact grows with the three impact metrics. */
  lemma {:induction false} ImpactMonotone(v: Weights, w: Weights)
    requires Sound(v) && Sound(w) && NotWorse(v, w)
    requires v.conf != 0.0 || v.integ != 0.0 || v.avail != 0.0
    ensures ImpactOf(v.scope != 0.0, IscBase(v)) <= ImpactOf(w.scope != 0.0, IscBase(w))
  {
    hide Isc, Power, InTable;
    IscBaseMonotone(v, w);
    ImpactAtLeast(v);
    ScopeMonotone(v, w);
    HighestIsc(v);
    HighestIsc(w);
    if v.scope == 0.0 {
      ChangedScopeImpact(IscBase(w));
    } else {
      if IscBase(w) <= 0.848992 {
        ChangedImpactMonotone(IscBase(v), IscBase(w));
      } else if IscBase(v) <= 0.848992 {
        ChangedImpactMonotone(IscBase(v), 0.848992);
        HighestChangedImpact();
      }
    }
  }

  /** A vector that is nowhere less severe never scores lower. */
  lemma {:induction false} ScoreMonotone(v: Weights, w: Weights)
    requires Sound(v) && Sound(w) && NotWorse(v, w)
    ensures Score(v) <= Score(w)
  {
    hide Final, Exploitability, ImpactOf, IscBase, InTable;
    var k := SoundRange(w);
    ImpactPositive(v);
    ExploitabilityMonotone(v, w);
    ScopeMonotone(v, w);
    var before, after := v.scope != 0.0, w.scope != 0.0;
    var i, j := ImpactOf(before, IscBase(v)), ImpactOf(after, IscBase(w));
    if i > 0.0 {
      ImpactMonotone(v, w);
      FinalMonotone(Total(before, i, Exploitability(v)), Total(after, j, Exploitability(w)));
    }
  }

  /** Of two complete vectors, one that is nowhere less severe never scores lower. */
  lemma {:induction false} VectorMonotone(v: string, w: string)
    requires Complete(WeightsOf(Split(v, '/'))) && Complete(WeightsOf(Split(w, '/')))
    requires NotWorse(WeightsOf(Split(v, '/')), WeightsOf(Split(w, '/')))
    ensures VectorScore(v) <= VectorScore(w)
  {
    hide Split, WeightsOf, Score, NotWorse, Sound;
    CompleteIsSound(Split(v, '/'));
    CompleteIsSound(Split(w, '/'));
    ScoreMonotone(WeightsOf(Split(v, '/')), WeightsOf(Split(w, '/')));
  }
}
