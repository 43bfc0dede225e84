/** The pure steps of the command-line tool in `src/main.rs`: the query
    region that spans both variants, and the per-read tally that turns two
    `validate` verdicts into one of four counters. Reading the alignment
    file is left to a caller-supplied `fetch` function; the reference
    header is a map from contig name to reference id. */
module Driver {
  import opened Wrappers
  import opened Variants
  import opened Validation
  import Links

  /** A query region on reference `refId`, as passed to `Region::new`. */
  datatype Region = Region(refId: nat, start: nat, end: nat)

  datatype RegionError =
    | InconsistentContig(first: string, second: string)
    | NoSuchContig(contig: string)

  /** `get_merge_region`: both variants must sit on the same contig, and
      the header must know it; the region then runs from the smaller start
      to one past the larger end. */
  function GetMergeRegion(header: map<string, nat>, v1: Variant, v2: Variant): (r: Result<Region, RegionError>)
    ensures v1.contig != v2.contig ==> r == Err(InconsistentContig(v1.contig, v2.contig))
    ensures v1.contig == v2.contig && v1.contig !in header ==> r == Err(NoSuchContig(v1.contig))
    ensures v1.contig == v2.contig && v1.contig in header ==> r.Ok?
    ensures r.Ok? ==> v1.contig == v2.contig && v1.contig in header && r.value.refId == header[v1.contig]
    ensures r.Ok? ==> r.value.start <= v1.start && r.value.start <= v2.start
    ensures r.Ok? ==> r.value.start == v1.start || r.value.start == v2.start
    ensures r.Ok? ==> v1.end < r.value.end && v2.end < r.value.end
    ensures r.Ok? ==> r.value.end == v1.end + 1 || r.value.end == v2.end + 1
  {
    if v1.contig != v2.contig then Err(InconsistentContig(v1.contig, v2.contig))
    else if v1.contig !in header then Err(NoSuchContig(v1.contig))
    else
      Ok(Region(
        header[v1.contig],
        if v1.start <= v2.start then v1.start else v2.start,
        (if v1.end >= v2.end then v1.end else v2.end) + 1))
  }

  /** The two verdicts of one read: for the first and the second variant. */
  type Verdicts = (Option<bool>, Option<bool>)

  /** Which counter a read goes to, if any. */
  datatype Category = Both | FirstOnly | SecondOnly | Neither

  function CategoryOf(v: Verdicts): Option<Category> {
    match v
    case (Some(true), Some(true)) => Some(Both)
    case (Some(true), Some(false)) => Some(FirstOnly)
    case (Some(false), Some(true)) => Some(SecondOnly)
    case (Some(false), Some(false)) => Some(Neither)
    case _ => None
  }

  /** How many records fall into category `c`. */
  function CountOf(vs: seq<Verdicts>, c: Category): nat {
    if |vs| == 0 then 0
    else (if CategoryOf(vs[0]) == Some(c) then 1 else 0) + CountOf(vs[1..], c)
  }

  /** How many records have a verdict for both variants. */
  function Informative(vs: seq<Verdicts>): nat {
    if |vs| == 0 then 0
    else (if vs[0].0.Some? && vs[0].1.Some? then 1 else 0) + Informative(vs[1..])
  }

  function Total(l: Links.Link): nat {
    l.both + l.first + l.second + l.neither
  }

  function Zero(): Links.Link {
    Links.Link(0, 0, 0, 0)
  }

  /** The counts of two batches of records, added. */
  function Add(a: Links.Link, b: Links.Link): Links.Link {
    Links.Link(a.both + b.both, a.first + b.first, a.second + b.second, a.neither + b.neither)
  }

  /** The body of the `try_for_each` closure, once the two verdicts are
      known: a read either verdict leaves as `None` changes nothing;
      otherwise exactly one counter goes up by one. */
  function TallyRead(l: Links.Link, v: Verdicts): (r: Links.Link)
    ensures v.0.None? || v.1.None? ==> r == l
    ensures v == (Some(true), Some(true)) ==> r == l.(both := l.both + 1)
    ensures v == (Some(true), Some(false)) ==> r == l.(first := l.first + 1)
    ensures v == (Some(false), Some(true)) ==> r == l.(second := l.second + 1)
    ensures v == (Some(false), Some(false)) ==> r == l.(neither := l.neither + 1)
  {
    if v.0.None? || v.1.None? then l
    else
      var f1, f2 := v.0.value, v.1.value;
      if f1 && f2 then l.(both := l.both + 1)
      else if f1 then l.(first := l.first + 1)
      else if f2 then l.(second := l.second + 1)
      else l.(neither := l.neither + 1)
  }

  lemma {:induction false} CountOfAppend(a: seq<Verdicts>, b: seq<Verdicts>, c: Category)
    ensures CountOf(a + b, c) == CountOf(a, c) + CountOf(b, c)
  {
    if |a| > 0 {
      assert (a + b)[1..] == a[1..] + b;
      CountOfAppend(a[1..], b, c);
    } else {
      assert a + b == b;
    }
  }

  lemma {:induction false} InformativeAppend(a: seq<Verdicts>, b: seq<Verdicts>)
    ensures Informative(a + b) == Informative(a) + Informative(b)
  {
    if |a| > 0 {
      assert (a + b)[1..] == a[1..] + b;
      InformativeAppend(a[1..], b);
    } else {
      assert a + b == b;
    }
  }

  /** The tally over the records in fetch order, starting from zero. */
  function Tally(vs: seq<Verdicts>): Links.Link {
    if |vs| == 0 then Zero() else TallyRead(Tally(vs[..|vs| - 1]), vs[|vs| - 1])
  }

  /** The counter of category `c`. */
  function Counter(l: Links.Link, c: Category): nat {
    match c
    case Both => l.both
    case FirstOnly => l.first
    case SecondOnly => l.second
    case Neither => l.neither
  }

  /** Each counter of the tally holds the number of records in its
      category. */
  lemma {:induction false} TallyCounts(vs: seq<Verdicts>, c: Category)
    ensures Counter(Tally(vs), c) == CountOf(vs, c)
  {
    if |vs| > 0 {
      var prefix, last := vs[..|vs| - 1], vs[|vs| - 1];
      assert vs == prefix + [last];
      TallyCounts(prefix, c);
      CountOfAppend(prefix, [last], c);
    }
  }

  /** `TallyCounts` for every category at once. */
  lemma TallyCountsAll(vs: seq<Verdicts>)
    ensures forall c :: Counter(Tally(vs), c) == CountOf(vs, c)
  {
    forall c {
      TallyCounts(vs, c);
    }
  }

  /** Together the counters count exactly the records with a verdict for
      both variants. */
  lemma {:induction false} TallyInformative(vs: seq<Verdicts>)
    ensures Total(Tally(vs)) == Informative(vs)
  {
    if |vs| > 0 {
      var prefix, last := vs[..|vs| - 1], vs[|vs| - 1];
      assert vs == prefix + [last];
      TallyInformative(prefix);
      InformativeAppend(prefix, [last]);
    }
  }

  /** Tallying one batch of records after another adds their counts. */
  lemma TallyAppend(a: seq<Verdicts>, b: seq<Verdicts>)
    ensures Tally(a + b) == Add(Tally(a), Tally(b))
  {
    forall c | true
      ensures Counter(Tally(a + b), c) == Counter(Tally(a), c) + Counter(Tally(b), c)
    {
      TallyCounts(a + b, c);
      TallyCounts(a, c);
      TallyCounts(b, c);
      CountOfAppend(a, b, c);
    }
    assert Counter(Tally(a + b), Both) == Counter(Add(Tally(a), Tally(b)), Both);
    assert Counter(Tally(a + b), FirstOnly) == Counter(Add(Tally(a), Tally(b)), FirstOnly);
    assert Counter(Tally(a + b), SecondOnly) == Counter(Add(Tally(a), Tally(b)), SecondOnly);
    assert Counter(Tally(a + b), Neither) == Counter(Add(Tally(a), Tally(b)), Neither);
  }

  /** The verdicts of every fetched read, for both variants. */
  function VerdictsOf(records: seq<Record>, v1: Variant, v2: Variant, options: ValidateOptions): (vs: seq<Verdicts>)
    requires PanicFree(v1) && PanicFree(v2)
    ensures |vs| == |records|
    ensures forall i :: 0 <= i < |records| ==> vs[i] == (Validate(records[i], v1, options), Validate(records[i], v2, options))
  {
    seq(|records|, i requires 0 <= i < |records| => (Validate(records[i], v1, options), Validate(records[i], v2, options)))
  }

  datatype RunError =
    | BadVariant(error: ParseError)
    | BadRegion(region: RegionError)

  /** The part of `main` after both variants are parsed: build the
      region, fetch its records and tally them. */
  function Count(header: map<string, nat>, fetch: Region -> seq<Record>,
                 v1: Variant, v2: Variant, merge: bool): (r: Result<Links.Link, RunError>)
    requires PanicFree(v1) && PanicFree(v2)
    ensures GetMergeRegion(header, v1, v2).Err? ==> r == Err(BadRegion(GetMergeRegion(header, v1, v2).error))
    ensures r.Ok? <==> GetMergeRegion(header, v1, v2).Ok?
    ensures r.Ok? ==> Total(r.value) <= |fetch(GetMergeRegion(header, v1, v2).value)|
    ensures r.Ok? ==> r.value == Tally(VerdictsOf(fetch(GetMergeRegion(header, v1, v2).value), v1, v2, ValidateOptions(merge)))
    ensures r.Ok? ==>
              forall c :: Counter(r.value, c)
                       == CountOf(VerdictsOf(fetch(GetMergeRegion(header, v1, v2).value), v1, v2, ValidateOptions(merge)), c)
  {
    match GetMergeRegion(header, v1, v2)
    case Err(e) => Err(BadRegion(e))
    case Ok(region) =>
      var records := fetch(region);
      var vs := VerdictsOf(records, v1, v2, ValidateOptions(merge));
      InformativeBound(vs);
      TallyInformative(vs);
      TallyCountsAll(vs);
      Ok(Tally(vs))
  }

  /** One read's verdicts under the stricter setting: the same reads get
      a verdict, and support for both variants survives only if it was
      there under the looser one. */
  predicate Stricter(a: Verdicts, b: Verdicts) {
    && (a.0.None? <==> b.0.None?)
    && (a.1.None? <==> b.1.None?)
    && (CategoryOf(a) == Some(Both) ==> CategoryOf(b) == Some(Both))
  }

  lemma {:induction false} StricterCounts(xs: seq<Verdicts>, ys: seq<Verdicts>)
    requires |xs| == |ys|
    requires forall i :: 0 <= i < |xs| ==> Stricter(xs[i], ys[i])
    ensures CountOf(xs, Both) <= CountOf(ys, Both)
    ensures Informative(xs) == Informative(ys)
  {
    if |xs| > 0 {
      StricterCounts(xs[1..], ys[1..]);
    }
  }

  /** Turning `merge` on never adds a read that supports both variants,
      and does not change how many reads get a verdict for both. */
  lemma MergeVerdictsMonotone(records: seq<Record>, v1: Variant, v2: Variant)
    requires PanicFree(v1) && PanicFree(v2)
    ensures var strict, loose := VerdictsOf(records, v1, v2, ValidateOptions(true)), VerdictsOf(records, v1, v2, ValidateOptions(false));
            && CountOf(strict, Both) <= CountOf(loose, Both)
            && Informative(strict) == Informative(loose)
  {
    var strict, loose := VerdictsOf(records, v1, v2, ValidateOptions(true)), VerdictsOf(records, v1, v2, ValidateOptions(false));
    forall i | 0 <= i < |records|
      ensures Stricter(strict[i], loose[i])
    {
      ReadStricter(records[i], v1, v2);
    }
    StricterCounts(strict, loose);
  }

  lemma ReadStricter(rec: Record, v1: Variant, v2: Variant)
    requires PanicFree(v1) && PanicFree(v2)
    ensures Stricter((Validate(rec, v1, ValidateOptions(true)), Validate(rec, v2, ValidateOptions(true))),
                     (Validate(rec, v1, ValidateOptions(false)), Validate(rec, v2, ValidateOptions(false))))
  {
    ValidateMergeMonotone(rec, v1);
    ValidateMergeMonotone(rec, v2);
    StricterOf(Validate(rec, v1, ValidateOptions(true)), Validate(rec, v2, ValidateOptions(true)),
               Validate(rec, v1, ValidateOptions(false)), Validate(rec, v2, ValidateOptions(false)));
  }

  lemma StricterOf(a1: Option<bool>, a2: Option<bool>, b1: Option<bool>, b2: Option<bool>)
    requires (a1.None? <==> b1.None?) && (a1 == Some(true) ==> b1 == Some(true))
    requires (a2.None? <==> b2.None?) && (a2 == Some(true) ==> b2 == Some(true))
    ensures Stricter((a1, a2), (b1, b2))
  {
  }

  /** The run with `merge` on reports the same number of informative reads
      as with it off, and no more reads with both variants. */
  lemma CountMergeMonotone(header: map<string, nat>, fetch: Region -> seq<Record>, v1: Variant, v2: Variant)
    requires PanicFree(v1) && PanicFree(v2)
    ensures Count(header, fetch, v1, v2, true).Ok? <==> Count(header, fetch, v1, v2, false).Ok?
    ensures Count(header, fetch, v1, v2, true).Ok? ==>
              && Count(header, fetch, v1, v2, true).value.both <= Count(header, fetch, v1, v2, false).value.both
              && Total(Count(header, fetch, v1, v2, true).value) == Total(Count(header, fetch, v1, v2, false).value)
  {
    if GetMergeRegion(header, v1, v2).Ok? {
      var records := fetch(GetMergeRegion(header, v1, v2).value);
      MergeVerdictsMonotone(records, v1, v2);
      TallyInformative(VerdictsOf(records, v1, v2, ValidateOptions(true)));
      TallyInformative(VerdictsOf(records, v1, v2, ValidateOptions(false)));
      TallyCounts(VerdictsOf(records, v1, v2, ValidateOptions(true)), Both);
      TallyCounts(VerdictsOf(records, v1, v2, ValidateOptions(false)), Both);
    }
  }

  /** `main` without its I/O: parse both variants, then count. A variant
      that does not parse stops the run before any record is fetched. The
      source panics in `validate` on a variant that starts too close to
      the contig start; those are excluded. */
  function Run(first: string, second: string, header: map<string, nat>,
               fetch: Region -> seq<Record>, merge: bool): (r: Result<Links.Link, RunError>)
    requires Parse(first).Ok? ==> PanicFree(Parse(first).value)
    requires Parse(second).Ok? ==> PanicFree(Parse(second).value)
    ensures Parse(first).Err? ==> r == Err(BadVariant(Parse(first).error))
    ensures Parse(first).Ok? && Parse(second).Err? ==> r == Err(BadVariant(Parse(second).error))
    ensures r.Ok? ==> Parse(first).Ok? && Parse(second).Ok?
    ensures Parse(first).Ok? && Parse(second).Ok? ==> r == Count(header, fetch, Parse(first).value, Parse(second).value, merge)
  {
    match Parse(first)
    case Err(e) => Err(BadVariant(e))
    case Ok(v1) =>
      match Parse(second)
      case Err(e) => Err(BadVariant(e))
      case Ok(v2) => Count(header, fetch, v1, v2, merge)
  }

  lemma {:induction false} InformativeBound(vs: seq<Verdicts>)
    ensures Informative(vs) <= |vs|
  {
    if |vs| > 0 {
      InformativeBound(vs[1..]);
    }
  }
}
