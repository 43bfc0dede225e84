/** The linkage classifier of `src/link.rs`: four read counts for a pair of
    variants and the five threshold rules that name their relationship.

    The source compares `f32` ratios against 0.96 and 0.01. Here every
    ratio is compared exactly, by cross-multiplication. A zero denominator
    behaves as IEEE division does: `0/0` is NaN, against which every
    comparison is false, and `x/0` with `x > 0` is `+inf`. */
module Links {
  import opened Wrappers
  import Decimal

  /** `VALID_READ`: the fewest reads that make a category count. */
  const ValidRead: nat := 3

  /** A frequency threshold `num/den` with `den > 0`. */
  datatype Ratio = Ratio(num: nat, den: nat)

  /** `VALID_FREQ` = 0.01 and `CONF_FREQ` = 0.96. */
  const ValidFreq := Ratio(1, 100)
  const ConfFreq := Ratio(96, 100)

  datatype Linkage = Cis | Trans | Super | Sub | Cross

  /** Reads supporting both variants, only the first, only the second,
      neither. */
  datatype Link = Link(both: nat, first: nat, second: nat, neither: nat)

  function Either(l: Link): nat {
    l.first + l.second
  }

  function Minor(l: Link): (m: nat)
    ensures m <= l.first && m <= l.second && (m == l.first || m == l.second)
  {
    if l.first <= l.second then l.first else l.second
  }

  function Major(l: Link): (m: nat)
    ensures m >= l.first && m >= l.second && (m == l.first || m == l.second)
  {
    if l.first >= l.second then l.first else l.second
  }

  /** Reads supporting at least one of the two variants. */
  function Any(l: Link): nat {
    l.both + Either(l)
  }

  /** `num/den >= t`, with IEEE semantics for a zero denominator. */
  predicate AtLeast(num: nat, den: nat, t: Ratio)
    requires t.den > 0
  {
    if den == 0 then num > 0 else num * t.den >= t.num * den
  }

  /** `num/den < t`, with IEEE semantics for a zero denominator. */
  predicate Below(num: nat, den: nat, t: Ratio)
    requires t.den > 0
  {
    den > 0 && num * t.den < t.num * den
  }

  // The rules, each on its own.

  predicate CisRule(l: Link) {
    && l.both >= ValidRead
    && AtLeast(l.both, Any(l), ConfFreq)
    && Major(l) < ValidRead
    && Below(Major(l), Any(l), ValidFreq)
  }

  predicate TransRule(l: Link) {
    && l.both < ValidRead
    && Below(l.both, Any(l), ValidFreq)
    && Minor(l) >= ValidRead
    && AtLeast(Minor(l), Minor(l) + l.both, ConfFreq)
  }

  predicate SubRule(l: Link) {
    && l.both >= ValidRead
    && l.first < ValidRead
    && Below(l.first, Any(l), ValidFreq)
    && l.second >= ValidRead
  }

  predicate SuperRule(l: Link) {
    && l.both >= ValidRead
    && l.second < ValidRead
    && Below(l.second, Any(l), ValidFreq)
    && l.first >= ValidRead
  }

  predicate CrossRule(l: Link) {
    && l.both >= ValidRead
    && AtLeast(l.both, Any(l), ValidFreq)
    && Minor(l) >= ValidRead
    && AtLeast(Minor(l), Any(l), ValidFreq)
  }

  predicate Rule(k: Linkage, l: Link) {
    match k
    case Cis => CisRule(l)
    case Trans => TransRule(l)
    case Sub => SubRule(l)
    case Super => SuperRule(l)
    case Cross => CrossRule(l)
  }

  /** `infer_linkage`: the rules are tried in the order Cis, Trans, Sub,
      Super, Cross and the first that holds gives the answer. */
  function InferLinkage(l: Link): (r: Option<Linkage>)
    ensures r == Some(Cis) ==> l.both >= ValidRead && Major(l) < ValidRead
    ensures r == Some(Trans) ==> l.both < ValidRead && Minor(l) >= ValidRead
    ensures r == Some(Sub) ==> l.both >= ValidRead && l.first < ValidRead && l.second >= ValidRead
    ensures r == Some(Super) ==> l.both >= ValidRead && l.second < ValidRead && l.first >= ValidRead
    ensures r == Some(Cross) ==> l.both >= ValidRead && Minor(l) >= ValidRead
  {
    if CisRule(l) then Some(Cis)
    else if TransRule(l) then Some(Trans)
    else if SubRule(l) then Some(Sub)
    else if SuperRule(l) then Some(Super)
    else if CrossRule(l) then Some(Cross)
    else None
  }

  /** At most one rule holds for any counts. */
  lemma RulesExclusive(l: Link, j: Linkage, k: Linkage)
    requires Rule(j, l) && Rule(k, l)
    ensures j == k
  {
  }

  /** Because the rules exclude each other, the order in which they are
      tried does not matter: the answer is the one rule that holds, and
      `None` exactly when none does. */
  lemma InferLinkageIsTheRuleThatHolds(l: Link)
    ensures forall k :: InferLinkage(l) == Some(k) <==> Rule(k, l)
    ensures InferLinkage(l).None? <==> forall k :: !Rule(k, l)
  {
    forall k | Rule(k, l)
      ensures InferLinkage(l) == Some(k)
    {
      var r := InferLinkage(l);
      if r.Some? {
        RulesExclusive(l, r.value, k);
      }
    }
  }

  /** The count of reads supporting neither variant plays no part. */
  lemma InferLinkageIgnoresNeither(l: Link, neither: nat)
    ensures InferLinkage(l.(neither := neither)) == InferLinkage(l)
  {
  }

  function Swap(l: Link): Link {
    Link(l.both, l.second, l.first, l.neither)
  }

  function SwapLinkage(k: Linkage): Linkage {
    match k
    case Sub => Super
    case Super => Sub
    case _ => k
  }

  /** Exchanging the roles of the two variants exchanges sub and super
      and leaves every other answer alone. */
  lemma InferLinkageSwap(l: Link)
    ensures InferLinkage(Swap(l)) == match InferLinkage(l) { case None => None case Some(k) => Some(SwapLinkage(k)) }
  {
    var s := Swap(l);
    assert Minor(s) == Minor(l) && Major(s) == Major(l) && Any(s) == Any(l);
    assert CisRule(s) == CisRule(l) && TransRule(s) == TransRule(l) && CrossRule(s) == CrossRule(l);
    assert SubRule(s) == SuperRule(l) && SuperRule(s) == SubRule(l);
  }

  /** With no informative read every ratio is `0/0`, and nothing is
      inferred. */
  lemma NoReadsUndefined(neither: nat)
    ensures InferLinkage(Link(0, 0, 0, neither)).None?
  {
  }

  /** The unit tests of `src/link.rs`. */
  lemma InferLinkageExamples()
    ensures InferLinkage(Link(101, 1, 0, 100)) == Some(Cis)
    ensures InferLinkage(Link(1, 50, 70, 100)) == Some(Trans)
    ensures InferLinkage(Link(28, 50, 0, 100)) == Some(Super)
    ensures InferLinkage(Link(58, 1, 50, 100)) == Some(Sub)
  {
  }

  // ---------------------------------------------------------------------
  // `Display` for `Linkage` and `Link`.

  function LinkageName(k: Linkage): string {
    match k
    case Cis => "cis"
    case Trans => "trans"
    case Super => "super"
    case Sub => "sub"
    case Cross => "cross"
  }

  /** The `conclusion` field: the linkage's name, or `undefined`. */
  function Conclusion(l: Link): string {
    match InferLinkage(l)
    case Some(k) => LinkageName(k)
    case None => "undefined"
  }

  /** Different answers are reported differently: the names are distinct
      and none of them is `undefined`. */
  lemma ConclusionFaithful(a: Link, b: Link)
    ensures Conclusion(a) == Conclusion(b) <==> InferLinkage(a) == InferLinkage(b)
  {
  }

  const OpenBoth := "{\n  \"both\": "
  const OpenFirst := ",\n  \"first\": "
  const OpenSecond := ",\n  \"second\": "
  const OpenNeither := ",\n  \"neither\": "
  const OpenConclusion := ",\n  \"conclusion\": \""
  const Close := "\"\n}"

  /** `Display for Link`: a JSON object of the four counts and the
      conclusion. */
  function Render(l: Link): string {
    OpenBoth + (Decimal.Show(l.both) + (OpenFirst + (Decimal.Show(l.first) + (OpenSecond + (Decimal.Show(l.second)
      + (OpenNeither + (Decimal.Show(l.neither) + (OpenConclusion + (Conclusion(l) + Close)))))))))
  }

  lemma StripPrefix(p: string, a: string, b: string)
    requires p + a == p + b
    ensures a == b
  {
    assert a == (p + a)[|p|..];
    assert b == (p + b)[|p|..];
  }

  lemma ConcatAt(a: string, b: string, i: nat)
    ensures i < |a| ==> (a + b)[i] == a[i]
  {
  }

  /** A digit string followed by text that starts with a non-digit can be
      split back into its two parts. */
  lemma SplitNumber(x: string, y: string, x': string, y': string)
    requires Decimal.AllDigits(x) && Decimal.AllDigits(x')
    requires |y| > 0 && !Decimal.IsDigit(y[0]) && |y'| > 0 && !Decimal.IsDigit(y'[0])
    requires x + y == x' + y'
    ensures x == x' && y == y'
  {
    if |x| < |x'| {
      ConcatAt(x', y', |x|);
      assert false;
    } else if |x'| < |x| {
      ConcatAt(x, y, |x'|);
      assert false;
    } else {
      assert x == (x + y)[..|x|];
      assert x' == (x' + y')[..|x|];
      StripPrefix(x, y, y');
    }
  }

  /** The report determines the counts: two links that print the same are
      the same link. */
  lemma RenderInjective(a: Link, b: Link)
    requires Render(a) == Render(b)
    ensures a == b
  {
    var restA := Decimal.Show(a.both) + (OpenFirst + (Decimal.Show(a.first) + (OpenSecond + (Decimal.Show(a.second)
      + (OpenNeither + (Decimal.Show(a.neither) + (OpenConclusion + (Conclusion(a) + Close))))))));
    var restB := Decimal.Show(b.both) + (OpenFirst + (Decimal.Show(b.first) + (OpenSecond + (Decimal.Show(b.second)
      + (OpenNeither + (Decimal.Show(b.neither) + (OpenConclusion + (Conclusion(b) + Close))))))));
    StripPrefix(OpenBoth, restA, restB);
    var a1 := OpenFirst + (Decimal.Show(a.first) + (OpenSecond + (Decimal.Show(a.second)
      + (OpenNeither + (Decimal.Show(a.neither) + (OpenConclusion + (Conclusion(a) + Close)))))));
    var b1 := OpenFirst + (Decimal.Show(b.first) + (OpenSecond + (Decimal.Show(b.second)
      + (OpenNeither + (Decimal.Show(b.neither) + (OpenConclusion + (Conclusion(b) + Close)))))));
    SplitNumber(Decimal.Show(a.both), a1, Decimal.Show(b.both), b1);
    Decimal.ShowInjective(a.both, b.both);
    var a2 := Decimal.Show(a.first) + (OpenSecond + (Decimal.Show(a.second)
      + (OpenNeither + (Decimal.Show(a.neither) + (OpenConclusion + (Conclusion(a) + Close))))));
    var b2 := Decimal.Show(b.first) + (OpenSecond + (Decimal.Show(b.second)
      + (OpenNeither + (Decimal.Show(b.neither) + (OpenConclusion + (Conclusion(b) + Close))))));
    StripPrefix(OpenFirst, a2, b2);
    var a3 := OpenSecond + (Decimal.Show(a.second) + (OpenNeither + (Decimal.Show(a.neither) + (OpenConclusion + (Conclusion(a) + Close)))));
    var b3 := OpenSecond + (Decimal.Show(b.second) + (OpenNeither + (Decimal.Show(b.neither) + (OpenConclusion + (Conclusion(b) + Close)))));
    SplitNumber(Decimal.Show(a.first), a3, Decimal.Show(b.first), b3);
    Decimal.ShowInjective(a.first, b.first);
    var a4 := Decimal.Show(a.second) + (OpenNeither + (Decimal.Show(a.neither) + (OpenConclusion + (Conclusion(a) + Close))));
    var b4 := Decimal.Show(b.second) + (OpenNeither + (Decimal.Show(b.neither) + (OpenConclusion + (Conclusion(b) + Close))));
    StripPrefix(OpenSecond, a4, b4);
    var a5 := OpenNeither + (Decimal.Show(a.neither) + (OpenConclusion + (Conclusion(a) + Close)));
    var b5 := OpenNeither + (Decimal.Show(b.neither) + (OpenConclusion + (Conclusion(b) + Close)));
    SplitNumber(Decimal.Show(a.second), a5, Decimal.Show(b.second), b5);
    Decimal.ShowInjective(a.second, b.second);
    var a6 := Decimal.Show(a.neither) + (OpenConclusion + (Conclusion(a) + Close));
    var b6 := Decimal.Show(b.neither) + (OpenConclusion + (Conclusion(b) + Close));
    StripPrefix(OpenNeither, a6, b6);
    var a7 := OpenConclusion + (Conclusion(a) + Close);
    var b7 := OpenConclusion + (Conclusion(b) + Close);
    SplitNumber(Decimal.Show(a.neither), a7, Decimal.Show(b.neither), b7);
    Decimal.ShowInjective(a.neither, b.neither);
  }
}
