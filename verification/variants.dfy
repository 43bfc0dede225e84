/** The variant model of `src/variant.rs`: the five edit kinds, the
    `Variant` record, the combinator parser for the
    `contig:pos[_pos2][SEQ](>|ins|delins|del)[SEQ]` notation, and the length
    an edit affects. Parsers follow nom's `IResult` shape: on success they
    return the value together with the input left over. */
module Variants {
  import opened Wrappers
  import Decimal

  /** `Edit`; Rust's `is_del`, `is_ins`, ... are the discriminators `Del?`,
      `Ins?`, ... of this datatype. */
  datatype Edit = Sub | Del | Ins | Delins | Identity

  /** A variant at 1-based inclusive positions `start..end` of `contig`. */
  datatype Variant = Variant(
    contig: string,
    start: nat,
    end: nat,
    edit: Edit,
    refseq: Option<string>,
    altseq: Option<string>)

  /** A value read off the front of a string and the input left over. */
  datatype Parsed<T> = Parsed(value: T, rest: string)

  datatype ParseError =
    | NoContigSeparator  // `take_until(":")` found no ':'
    | NoPosition         // `digit1` found no digit after the ':'
    | UnknownEdit        // none of the four edit tags follows
    | MissingSequence    // an edit other than `del` with neither sequence
    | TrailingInput      // input left over after the alternate sequence

  /** The alphabet `is_a("ATCGN")` accepts. */
  predicate IsBase(c: char) {
    c == 'A' || c == 'T' || c == 'C' || c == 'G' || c == 'N'
  }

  predicate AllBases(s: string) {
    forall i :: 0 <= i < |s| ==> IsBase(s[i])
  }

  /** A sequence field as the parser can produce it: absent, or a non-empty
      run of bases. */
  predicate SequenceField(o: Option<string>) {
    o.None? || (|o.value| > 0 && AllBases(o.value))
  }

  /** The sequence a field holds, the empty string when it is absent. */
  function SeqOr(o: Option<string>): string {
    if o.Some? then o.value else ""
  }

  /** What every successful parse produces. */
  predicate WellFormed(v: Variant) {
    && ':' !in v.contig
    && v.edit != Identity
    && SequenceField(v.refseq)
    && SequenceField(v.altseq)
    && (v.edit != Del ==> v.refseq.Some? || v.altseq.Some?)
  }

  predicate StartsWith(s: string, prefix: string) {
    |prefix| <= |s| && s[..|prefix|] == prefix
  }

  /** The character classes the parsers scan for: what `digit1`,
      `is_a("ATCGN")` and `take_until(":")` consume. */
  datatype CharClass = Digit | Base | NotColon

  predicate In(k: CharClass, c: char) {
    match k
    case Digit => Decimal.IsDigit(c)
    case Base => IsBase(c)
    case NotColon => c != ':'
  }

  /** The length of the longest prefix of `s` whose characters are in `k`. */
  function Span(s: string, k: CharClass): (n: nat)
    ensures n <= |s|
  {
    if |s| == 0 || !In(k, s[0]) then 0 else 1 + Span(s[1..], k)
  }

  /** The prefix `Span` measures is in the class, and it cannot be
      extended. */
  lemma {:induction false} SpanMaximal(s: string, k: CharClass)
    ensures forall i :: 0 <= i < Span(s, k) ==> In(k, s[i])
    ensures Span(s, k) < |s| ==> !In(k, s[Span(s, k)])
  {
    if |s| > 0 && In(k, s[0]) {
      SpanMaximal(s[1..], k);
    }
  }

  /** `take_until(":")`: everything before the first ':'; the ':' stays in
      the rest. */
  function ParseContig(s: string): (r: Option<Parsed<string>>)
    ensures r.Some? <==> ':' in s
    ensures r.Some? ==> ':' !in r.value.value
    ensures r.Some? ==> s == r.value.value + r.value.rest
    ensures r.Some? ==> |r.value.rest| > 0 && r.value.rest[0] == ':'
  {
    var n := Span(s, NotColon);
    SpanMaximal(s, NotColon);
    if n == |s| then
      assert forall i :: 0 <= i < |s| ==> In(NotColon, s[i]);
      None
    else
      var contig := s[..n];
      assert forall i :: 0 <= i < |contig| ==> In(NotColon, contig[i]);
      assert s == contig + s[n..];
      Some(Parsed(contig, s[n..]))
  }

  /** `digit1` followed by `parse::<u32>`: the maximal non-empty run of
      digits and its value. */
  function Digits(s: string): (r: Option<Parsed<nat>>)
    ensures r.Some? <==> |s| > 0 && Decimal.IsDigit(s[0])
    ensures r.Some? ==> |r.value.rest| < |s|
  {
    var n := Span(s, Digit);
    SpanMaximal(s, Digit);
    if n == 0 then None else Some(Parsed(Decimal.Value(s[..n]), s[n..]))
  }

  /** `parse_position`: a number, then optionally `_` and a number; a
      single position stands for both ends. A `_` not followed by a digit
      is left unconsumed, as `opt` backtracks. */
  function ParsePosition(s: string): (r: Option<Parsed<(nat, nat)>>)
    ensures r.Some? <==> |s| > 0 && Decimal.IsDigit(s[0])
    ensures r.Some? ==> |r.value.rest| < |s|
  {
    match Digits(s)
    case None => None
    case Some(p) =>
      var single := Some(Parsed((p.value, p.value), p.rest));
      if |p.rest| == 0 || p.rest[0] != '_' then single
      else
        match Digits(p.rest[1..])
        case None => single
        case Some(q) => Some(Parsed((p.value, q.value), q.rest))
  }

  /** What `Digits` reads: the input starts with a run of digits, the run
      is maximal, and the number is the value of that run. */
  lemma DigitsRead(s: string)
    requires Digits(s).Some?
    ensures var r := Digits(s).value;
            var n := |s| - |r.rest|;
            && n > 0 && Decimal.AllDigits(s[..n]) && r.rest == s[n..]
            && r.value == Decimal.Value(s[..n])
            && (|r.rest| == 0 || !Decimal.IsDigit(r.rest[0]))
  {
    SpanMaximal(s, Digit);
  }

  /** The numbers `parse_position` returns: the start is the value of the
      leading digit run; the end is the value of a second digit run when
      `_` and a digit follow the first, and otherwise the start again. */
  lemma ParsePositionDigits(s: string)
    requires ParsePosition(s).Some?
    ensures Digits(s).Some? && ParsePosition(s).value.value.0 == Digits(s).value.value
    ensures var p, r := Digits(s).value, ParsePosition(s).value;
            var ranged := |p.rest| > 1 && p.rest[0] == '_' && Decimal.IsDigit(p.rest[1]);
            && (!ranged ==> r.value.1 == p.value && r.rest == p.rest)
            && (ranged ==> Digits(p.rest[1..]) == Some(Parsed(r.value.1, r.rest)))
  {
  }

  /** `parse_sequence`: the maximal non-empty run of bases. */
  function ParseSequence(s: string): (r: Option<Parsed<string>>)
    ensures r.Some? <==> |s| > 0 && IsBase(s[0])
    ensures r.Some? ==> |r.value.value| > 0 && AllBases(r.value.value)
    ensures r.Some? ==> s == r.value.value + r.value.rest
    ensures r.Some? ==> |r.value.rest| == 0 || !IsBase(r.value.rest[0])
  {
    var n := Span(s, Base);
    SpanMaximal(s, Base);
    if n == 0 then None
    else
      assert s == s[..n] + s[n..];
      Some(Parsed(s[..n], s[n..]))
  }

  /** `opt(parse_sequence)`: a missing run is not an error and consumes
      nothing. */
  function OptSequence(s: string): Parsed<Option<string>> {
    match ParseSequence(s)
    case None => Parsed(None, s)
    case Some(p) => Parsed(Some(p.value), p.rest)
  }

  /** The literal tag each edit is written with; identity has none in this
      notation, so `=` (the HGVS identity sign) stands in for it and is not
      accepted by the parser. */
  function TagText(e: Edit): string {
    match e
    case Sub => ">"
    case Ins => "ins"
    case Delins => "delins"
    case Del => "del"
    case Identity => "="
  }

  /** `parse_edit`: the tags are tried in the order `>`, `ins`, `delins`,
      `del`, so a `delins` is never read as `del` followed by text. */
  function ParseEdit(s: string): (r: Option<Parsed<Edit>>)
    ensures r.None? <==> !StartsWith(s, ">") && !StartsWith(s, "ins") && !StartsWith(s, "del")
    ensures r.Some? ==> r.value.value != Identity && s == TagText(r.value.value) + r.value.rest
  {
    if StartsWith(s, ">") then Some(Parsed(Sub, s[1..]))
    else if StartsWith(s, "ins") then Some(Parsed(Ins, s[3..]))
    else if StartsWith(s, "delins") then Some(Parsed(Delins, s[6..]))
    else if StartsWith(s, "del") then Some(Parsed(Del, s[3..]))
    else None
  }

  /** Everything `Variant::parse` does after the ':': position, optional
      reference run, edit tag, optional alternate run, then the two
      post-parse checks in the source's order. */
  function ParseFields(contig: string, s: string): (r: Result<Variant, ParseError>)
    ensures r.Ok? ==> r.value.contig == contig
    ensures r.Ok? ==> r.value.edit != Identity
    ensures r.Ok? ==> SequenceField(r.value.refseq) && SequenceField(r.value.altseq)
    ensures r.Ok? && r.value.edit != Del ==> r.value.refseq.Some? || r.value.altseq.Some?
  {
    match ParsePosition(s)
    case None => Err(NoPosition)
    case Some(p) =>
      var refseq := OptSequence(p.rest);
      match ParseEdit(refseq.rest)
      case None => Err(UnknownEdit)
      case Some(e) =>
        var altseq := OptSequence(e.rest);
        var v := Variant(contig, p.value.0, p.value.1, e.value, refseq.value, altseq.value);
        if !v.edit.Del? && v.refseq.None? && v.altseq.None? then Err(MissingSequence)
        else if |altseq.rest| != 0 then Err(TrailingInput)
        else Ok(v)
  }

  /** `Variant::parse`. */
  function Parse(input: string): (r: Result<Variant, ParseError>)
    ensures ':' !in input ==> r == Err(NoContigSeparator)
    ensures r.Ok? ==> WellFormed(r.value)
    ensures r.Ok? ==> StartsWith(input, r.value.contig + ":")
  {
    match ParseContig(input)
    case None => Err(NoContigSeparator)
    case Some(c) =>
      assert input == c.value + c.rest;
      assert input[..|c.value| + 1] == c.value + ":";
      ParseFields(c.value, c.rest[1..])
  }

  /** `affected_length`: how many positions the edit touches. The source
      computes `end - start + 1` in `u32`, which panics for a deletion whose
      end lies before its start; that is the precondition here. */
  function AffectedLength(v: Variant): (n: nat)
    requires v.edit == Del ==> v.start <= v.end
    ensures v.edit == Del ==> n >= 1 && v.start + n - 1 == v.end
    ensures v.edit == Ins ==> n == |SeqOr(v.altseq)|
    ensures v.edit == Sub ==> n == 1
    ensures v.edit == Delins ==> n >= |SeqOr(v.refseq)| && n >= |SeqOr(v.altseq)|
    ensures v.edit == Delins ==> n == |SeqOr(v.refseq)| || n == |SeqOr(v.altseq)|
    ensures v.edit == Identity ==> n == 0
  {
    match v.edit
    case Del => v.end - v.start + 1
    case Ins => |SeqOr(v.altseq)|
    case Sub => 1
    case Delins =>
      if |SeqOr(v.refseq)| >= |SeqOr(v.altseq)| then |SeqOr(v.refseq)| else |SeqOr(v.altseq)|
    case Identity => 0
  }

  /** Rust's order of tag tests puts `delins` before `del`, so input that
      starts with `delins` is always read as a deletion-insertion. */
  lemma ParseEditDelinsFirst(s: string)
    requires StartsWith(s, "delins")
    ensures ParseEdit(s) == Some(Parsed(Delins, s[6..]))
  {
    assert s[0] == 'd';
  }

  // ---------------------------------------------------------------------
  // Printing a variant in the notation the parser reads, and reading it back.

  function PositionText(start: nat, end: nat): string {
    if start == end then Decimal.Show(start)
    else Decimal.Show(start) + ("_" + Decimal.Show(end))
  }

  /** The canonical spelling of a variant: single position when both ends
      agree, the `start_end` range otherwise. */
  function Format(v: Variant): string {
    v.contig + ":" + PositionText(v.start, v.end) + SeqOr(v.refseq) + TagText(v.edit) + SeqOr(v.altseq)
  }

  lemma {:induction false} SpanAppend(x: string, y: string, k: CharClass)
    requires forall i :: 0 <= i < |x| ==> In(k, x[i])
    requires |y| == 0 || !In(k, y[0])
    ensures Span(x + y, k) == |x|
  {
    if |x| > 0 {
      assert (x + y)[1..] == x[1..] + y;
      SpanAppend(x[1..], y, k);
    }
  }

  lemma ParseContigAppend(c: string, t: string)
    requires ':' !in c
    requires |t| > 0 && t[0] == ':'
    ensures ParseContig(c + t) == Some(Parsed(c, t))
  {
    var s := c + t;
    assert forall i :: 0 <= i < |c| ==> In(NotColon, c[i]);
    SpanAppend(c, t, NotColon);
    assert s[..|c|] == c;
    assert s[|c|..] == t;
  }

  /** A number printed in decimal and followed by a non-digit is read
      back by `Digits`. */
  lemma DigitsShow(n: nat, t: string)
    requires |t| == 0 || !Decimal.IsDigit(t[0])
    ensures Digits(Decimal.Show(n) + t) == Some(Parsed(n, t))
  {
    var sn := Decimal.Show(n);
    var s := sn + t;
    Decimal.ValueShow(n);
    SpanAppend(sn, t, Digit);
    assert s[..|sn|] == sn;
    assert s[|sn|..] == t;
  }

  lemma ParsePositionText(a: nat, b: nat, t: string)
    requires |t| == 0 || (!Decimal.IsDigit(t[0]) && t[0] != '_')
    ensures ParsePosition(PositionText(a, b) + t) == Some(Parsed((a, b), t))
  {
    if a == b {
      DigitsShow(a, t);
    } else {
      var sb := Decimal.Show(b);
      var res := "_" + (sb + t);
      assert PositionText(a, b) + t == Decimal.Show(a) + res;
      DigitsShow(a, res);
      assert res[1..] == sb + t;
      DigitsShow(b, t);
    }
  }

  lemma OptSequenceText(o: Option<string>, t: string)
    requires SequenceField(o)
    requires |t| == 0 || !IsBase(t[0])
    ensures OptSequence(SeqOr(o) + t) == Parsed(o, t)
  {
    if o.Some? {
      var s := o.value + t;
      SpanAppend(o.value, t, Base);
      assert s[..|o.value|] == o.value;
      assert s[|o.value|..] == t;
    } else {
      assert SeqOr(o) + t == t;
    }
  }

  lemma ParseEditText(e: Edit, t: string)
    requires e != Identity
    requires e == Del ==> !StartsWith(t, "ins")
    ensures ParseEdit(TagText(e) + t) == Some(Parsed(e, t))
  {
    var s := TagText(e) + t;
    match e
    case Sub =>
      assert s[..1] == ">" && s[1..] == t;
    case Ins =>
      assert s[0] == 'i' && s[..3] == "ins" && s[3..] == t;
    case Delins =>
      assert s[0] == 'd' && s[..6] == "delins" && s[6..] == t;
    case Del =>
      assert s[0] == 'd' && s[..3] == "del" && s[3..] == t;
  }

  /** `ParseFields` assembled from the results of its four steps. */
  lemma ParseFieldsSteps(contig: string, s: string, start: nat, end: nat, afterPos: string,
                         refseq: Option<string>, tag: string, e: Edit, alt: string,
                         altseq: Option<string>, t: string)
    requires ParsePosition(s) == Some(Parsed((start, end), afterPos))
    requires OptSequence(afterPos) == Parsed(refseq, tag)
    requires ParseEdit(tag) == Some(Parsed(e, alt))
    requires OptSequence(alt) == Parsed(altseq, t)
    ensures ParseFields(contig, s)
         == if e != Del && refseq.None? && altseq.None? then Err(MissingSequence)
            else if |t| == 0 then Ok(Variant(contig, start, end, e, refseq, altseq))
            else Err(TrailingInput)
  {
  }

  /** What follows the position in a printed variant starts with a base or
      a tag character, never with a digit or '_'. */
  lemma AfterPositionStart(v: Variant, tag: string)
    requires WellFormed(v)
    requires |tag| > 0 && tag[0] == TagText(v.edit)[0]
    ensures var s := SeqOr(v.refseq) + tag; |s| > 0 && !Decimal.IsDigit(s[0]) && s[0] != '_'
  {
    var s := SeqOr(v.refseq) + tag;
    if v.refseq.Some? {
      assert s[0] == v.refseq.value[0];
      assert IsBase(v.refseq.value[0]);
    } else {
      assert s == tag;
    }
  }

  /** After a `del` tag the printed text never continues with `ins`. */
  lemma AfterDelNotIns(v: Variant, t: string)
    requires WellFormed(v) && v.edit == Del
    requires |t| == 0 || (!IsBase(t[0]) && t[0] != 'i')
    ensures !StartsWith(SeqOr(v.altseq) + t, "ins")
  {
    var alt := SeqOr(v.altseq) + t;
    if v.altseq.Some? {
      assert alt[0] == v.altseq.value[0];
    } else {
      assert alt == t;
    }
    assert |alt| == 0 || alt[0] != 'i';
    assert |alt| >= 3 ==> alt[..3][0] == alt[0];
  }

  /** The position of a printed variant is read back, and the parser
      stops where the reference run or the tag begins. */
  lemma PositionStep(v: Variant, tag: string)
    requires WellFormed(v)
    requires |tag| > 0 && tag[0] == TagText(v.edit)[0]
    ensures ParsePosition(PositionText(v.start, v.end) + (SeqOr(v.refseq) + tag))
         == Some(Parsed((v.start, v.end), SeqOr(v.refseq) + tag))
  {
    AfterPositionStart(v, tag);
    ParsePositionText(v.start, v.end, SeqOr(v.refseq) + tag);
  }

  /** The tag of a printed variant is read back whole. */
  lemma EditStep(v: Variant, t: string)
    requires WellFormed(v)
    requires |t| == 0 || (!IsBase(t[0]) && t[0] != 'i')
    ensures ParseEdit(TagText(v.edit) + (SeqOr(v.altseq) + t)) == Some(Parsed(v.edit, SeqOr(v.altseq) + t))
  {
    if v.edit == Del {
      AfterDelNotIns(v, t);
    }
    ParseEditText(v.edit, SeqOr(v.altseq) + t);
  }

  /** The part of `ParseFormat` after the ':'. */
  lemma ParseFieldsText(v: Variant, t: string)
    requires WellFormed(v)
    requires |t| == 0 || (!IsBase(t[0]) && t[0] != 'i')
    ensures ParseFields(v.contig, PositionText(v.start, v.end) + (SeqOr(v.refseq) + (TagText(v.edit) + (SeqOr(v.altseq) + t))))
         == if |t| == 0 then Ok(v) else Err(TrailingInput)
  {
    var alt := SeqOr(v.altseq) + t;
    var tag := TagText(v.edit) + alt;
    var afterPos := SeqOr(v.refseq) + tag;
    var s := PositionText(v.start, v.end) + afterPos;
    PositionStep(v, tag);
    OptSequenceText(v.refseq, tag);
    EditStep(v, t);
    OptSequenceText(v.altseq, t);
    ParseFieldsSteps(v.contig, s, v.start, v.end, afterPos, v.refseq, tag, v.edit, alt, v.altseq, t);
  }

  lemma AppendEmpty(x: string)
    ensures x + "" == x && "" + x == x
  {
  }

  lemma Assoc(x: string, y: string, z: string)
    ensures (x + y) + z == x + (y + z)
  {
  }

  lemma FormatAppend(v: Variant, t: string)
    ensures Format(v) + t
         == v.contig + (":" + (PositionText(v.start, v.end) + (SeqOr(v.refseq) + (TagText(v.edit) + (SeqOr(v.altseq) + t)))))
  {
    var c, p, r, g, a := v.contig, PositionText(v.start, v.end), SeqOr(v.refseq), TagText(v.edit), SeqOr(v.altseq);
    Assoc(c + ":" + p + r + g, a, t);
    Assoc(c + ":" + p + r, g, a + t);
    Assoc(c + ":" + p, r, g + (a + t));
    Assoc(c + ":", p, r + (g + (a + t)));
    Assoc(c, ":", p + (r + (g + (a + t))));
  }

  /** Printing then parsing gives the variant back; with anything appended
      that cannot continue the alternate run or the tag, parsing fails with
      `TrailingInput`, because `Variant::parse` rejects unconsumed input. */
  lemma ParseFormat(v: Variant, t: string)
    requires WellFormed(v)
    requires |t| == 0 || (!IsBase(t[0]) && t[0] != 'i')
    ensures Parse(Format(v) + t) == if |t| == 0 then Ok(v) else Err(TrailingInput)
  {
    var fields := PositionText(v.start, v.end) + (SeqOr(v.refseq) + (TagText(v.edit) + (SeqOr(v.altseq) + t)));
    FormatAppend(v, t);
    ParseContigAppend(v.contig, ":" + fields);
    assert (":" + fields)[1..] == fields;
    ParseFieldsText(v, t);
  }

  // ---------------------------------------------------------------------
  // The source's own examples.

  lemma ParseSnvExample()
    ensures Parse("1:12345A>G") == Ok(Variant("1", 12345, 12345, Sub, Some("A"), Some("G")))
  {
    var v := Variant("1", 12345, 12345, Sub, Some("A"), Some("G"));
    assert Format(v) + "" == "1:12345A>G" by {
      Show12345();
      FormatAppend(v, "");
    }
    ParseFormat(v, "");
  }

  lemma Show12345()
    ensures Decimal.Show(12345) == "12345"
    ensures Decimal.Show(12346) == "12346"
  {
    assert Decimal.Show(1) == "1";
    assert Decimal.Show(12) == "12";
    assert Decimal.Show(123) == "123";
    assert Decimal.Show(1234) == "1234";
    assert Decimal.Show(12345) == "12345";
    assert Decimal.Show(12346) == "12346";
  }

  /** Past the contig, `Variant::parse` is `ParseFields`. */
  lemma ParseAfterContig(contig: string, fields: string)
    requires ':' !in contig
    ensures Parse(contig + (":" + fields)) == ParseFields(contig, fields)
  {
    ParseContigAppend(contig, ":" + fields);
    assert (":" + fields)[1..] == fields;
  }

  lemma ParseInsertionExample(input: string)
    requires input == "1:12345_12346insATCG"
    ensures Parse(input) == Ok(Variant("1", 12345, 12346, Ins, None, Some("ATCG")))
  {
    var contig, a, b, e, alt := "1", 12345, 12346, Ins, Some("ATCG");
    InsertionText(input);
    ParseRange(contig, a, b, e, alt);
  }

  lemma InsertionText(input: string)
    requires input == "1:12345_12346insATCG"
    ensures input == "1" + (":" + (Decimal.Show(12345) + ("_" + (Decimal.Show(12346) + (TagText(Ins) + SeqOr(Some("ATCG")))))))
  {
    Show12345();
  }

  lemma ParseDeletionExample(input: string)
    requires input == "1:12345_12346del"
    ensures Parse(input) == Ok(Variant("1", 12345, 12346, Del, None, None))
  {
    var contig, a, b, e, alt := "1", 12345, 12346, Del, None;
    DeletionText(input);
    ParseRange(contig, a, b, e, alt);
  }

  lemma DeletionText(input: string)
    requires input == "1:12345_12346del"
    ensures input == "1" + (":" + (Decimal.Show(12345) + ("_" + (Decimal.Show(12346) + (TagText(Del) + SeqOr(None))))))
  {
    Show12345();
  }

  /** `test_parse_position`: a range and a single position. */
  lemma ParsePositionExamples()
    ensures ParsePosition("12345_12346del") == Some(Parsed((12345, 12346), "del"))
    ensures ParsePosition("12345A>G") == Some(Parsed((12345, 12345), "A>G"))
  {
    PositionRangeExample();
    PositionSingleExample();
  }

  lemma PositionSingleExample()
    ensures ParsePosition("12345A>G") == Some(Parsed((12345, 12345), "A>G"))
  {
    Show12345();
    assert PositionText(12345, 12345) + "A>G" == "12345A>G";
    ParsePositionText(12345, 12345, "A>G");
  }

  lemma PositionRangeExample()
    ensures ParsePosition("12345_12346del") == Some(Parsed((12345, 12346), "del"))
  {
    Show12345();
    assert PositionText(12345, 12346) + "del" == "12345_12346del";
    ParsePositionText(12345, 12346, "del");
  }

  /** How a range variant without a reference run is printed. */
  lemma RangeFormat(v: Variant)
    requires v.start != v.end && v.refseq.None?
    ensures Format(v) + ""
         == v.contig + (":" + (Decimal.Show(v.start) + ("_" + (Decimal.Show(v.end) + (TagText(v.edit) + SeqOr(v.altseq))))))
  {
    var sa, sb, g, a := Decimal.Show(v.start), Decimal.Show(v.end), TagText(v.edit), SeqOr(v.altseq);
    FormatAppend(v, "");
    AppendEmpty(a);
    AppendEmpty(g + a);
    Assoc(sa, "_" + sb, g + a);
    Assoc("_", sb, g + a);
  }

  /** A range variant without a reference run, written
      `contig:a_b` then the tag then the alternate run: every tag is read
      whole, so `delins` is not cut short to `del`, as in
      `1:144854047_144854048delinsTG`. */
  lemma ParseRange(contig: string, a: nat, b: nat, e: Edit, alt: Option<string>)
    requires ':' !in contig && a != b && e != Identity
    requires SequenceField(alt) && (e != Del ==> alt.Some?)
    ensures Parse(contig + (":" + (Decimal.Show(a) + ("_" + (Decimal.Show(b) + (TagText(e) + SeqOr(alt)))))))
         == Ok(Variant(contig, a, b, e, None, alt))
  {
    var v := Variant(contig, a, b, e, None, alt);
    RangeFormat(v);
    ParseFormat(v, "");
  }

  /** No recognised tag after the position and optional reference run. */
  lemma ParseUnknownEdit(contig: string, a: nat, b: nat, refseq: Option<string>, t: string)
    requires ':' !in contig && SequenceField(refseq)
    requires |t| == 0 || (!IsBase(t[0]) && !Decimal.IsDigit(t[0]) && t[0] != '_')
    requires ParseEdit(t).None?
    ensures Parse(contig + (":" + (PositionText(a, b) + (SeqOr(refseq) + t)))) == Err(UnknownEdit)
  {
    var afterPos := SeqOr(refseq) + t;
    var fields := PositionText(a, b) + afterPos;
    assert ParsePosition(fields) == Some(Parsed((a, b), afterPos)) by {
      if refseq.Some? {
        assert afterPos[0] == refseq.value[0];
      } else {
        assert afterPos == t;
      }
      ParsePositionText(a, b, afterPos);
    }
    assert OptSequence(afterPos) == Parsed(refseq, t) by {
      OptSequenceText(refseq, t);
    }
    ParseAfterContig(contig, fields);
  }

  /** A substitution, insertion or deletion-insertion tag with neither
      sequence is refused, and this check comes before the one for
      unconsumed input. */
  lemma ParseMissingSequence(contig: string, a: nat, b: nat, e: Edit, t: string)
    requires ':' !in contig && (e == Sub || e == Ins || e == Delins)
    requires |t| == 0 || !IsBase(t[0])
    ensures Parse(contig + (":" + (PositionText(a, b) + (TagText(e) + t)))) == Err(MissingSequence)
  {
    var afterPos := TagText(e) + t;
    var fields := PositionText(a, b) + afterPos;
    assert afterPos[0] == TagText(e)[0];
    assert ParsePosition(fields) == Some(Parsed((a, b), afterPos)) by {
      ParsePositionText(a, b, afterPos);
    }
    assert OptSequence(afterPos) == Parsed(None, afterPos) by {
      assert !IsBase(afterPos[0]);
    }
    assert ParseEdit(afterPos) == Some(Parsed(e, t)) by {
      ParseEditText(e, t);
    }
    assert OptSequence(t) == Parsed(None, t);
    ParseFieldsSteps(contig, fields, a, b, afterPos, None, afterPos, e, t, None, t);
    ParseAfterContig(contig, fields);
  }
}
