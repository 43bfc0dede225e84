/** The per-read evidence check of `src/validate.rs`: the adjacency-conflict
    policy `logical_merge`, and `validate`, which decides whether one
    aligned read supports a variant (`Some(true)`), refutes it
    (`Some(false)`) or says nothing about it (`None`).

    The alignment library is not part of this model. A read is reduced to
    what `validate` asks of it: the mapped flag, the 0-based start, the end
    `calculate_end` reports (exclusive 0-based, so the 1-based inclusive
    last position), and the alignment entries, absent when the library
    cannot produce them. */
module Validation {
  import opened Wrappers
  import opened Variants

  /** The three shapes of an alignment entry: a read base against no
      reference base, a reference base against no read base, and a
      reference/read pair (a match or a mismatch). */
  datatype EntryKind = Insertion | Deletion | Match

  /** One step of the read-to-reference alignment. `refPos` is the 0-based
      reference position; insertions have none. */
  datatype Entry = Entry(kind: EntryKind, refPos: Option<nat>, refNt: Option<char>, readNt: Option<char>)

  /** The library's `is_seq_match`, taken as given: both bases are present
      and equal. */
  predicate IsSeqMatch(e: Entry) {
    e.refNt.Some? && e.readNt.Some? && e.refNt == e.readNt
  }

  datatype Record = Record(mapped: bool, start: nat, calculatedEnd: nat, entries: Option<seq<Entry>>)

  /** `ValidateOptions`; the default leaves `merge` off. */
  datatype ValidateOptions = ValidateOptions(merge: bool)

  const DefaultOptions := ValidateOptions(false)

  /** Substitution, deletion and insertion: the edits that are neither a
      compound edit nor no edit at all. */
  predicate Simple(e: Edit) {
    e == Sub || e == Del || e == Ins
  }

  /** `logical_merge`: does an edit observed next to the variant make the
      read unusable as support for it? With `merge` set, more adjacent
      edits count as a conflict. The policy is not symmetric: an observed
      deletion-insertion next to a substitution conflicts only under
      `merge`, an observed substitution next to a deletion-insertion always
      does. */
  function LogicalMerge(observed: Edit, target: Edit, merge: bool): (conflict: bool)
    ensures observed == Identity || target == Identity ==> !conflict
    ensures observed == Delins && target == Sub ==> conflict == merge
    ensures (&& observed != Identity && target != Identity
             && (observed == Delins || target == Delins)
             && !(observed == Delins && target == Sub)) ==> conflict
    ensures Simple(observed) && observed == target && observed != Sub ==> conflict
    ensures Simple(observed) && Simple(target) && (observed != target || observed == Sub) ==> conflict == merge
  {
    if observed.Identity? || target.Identity? then false
    else if observed.Delins? && target.Sub? then merge
    else if observed.Delins? || target.Delins? then true
    else if (observed.Del? != target.Del?) || (observed.Ins? != target.Ins?) || observed.Sub? || target.Sub? then merge
    else true
  }

  /** A conflict under the permissive policy is a conflict under the
      strict one as well. */
  lemma LogicalMergeMonotone(observed: Edit, target: Edit)
    ensures LogicalMerge(observed, target, false) ==> LogicalMerge(observed, target, true)
  {
  }

  /** The edit an entry shows: inserted or deleted base, a mismatch
      (substitution) or a match (identity). */
  function ObservedEdit(e: Entry): (edit: Edit)
    ensures edit == Identity <==> e.kind == Match && IsSeqMatch(e)
    ensures edit == Sub <==> e.kind == Match && !IsSeqMatch(e)
    ensures edit == Ins <==> e.kind == Insertion
    ensures edit == Del <==> e.kind == Deletion
  {
    match e.kind
    case Insertion => Ins
    case Deletion => Del
    case Match => if !IsSeqMatch(e) then Sub else Identity
  }

  /** The base a cursor points at, if any. */
  function Head(s: seq<char>): Option<char> {
    if |s| == 0 then None else Some(s[0])
  }

  /** Advancing a cursor; an exhausted cursor stays exhausted, as a Rust
      iterator keeps returning `None`. */
  function Tail(s: seq<char>): seq<char> {
    if |s| == 0 then [] else s[1..]
  }

  /** The loop of `validate`. `refc` and `altc` are the expected reference
      and alternate bases not yet confirmed; each step takes one entry.
      Since a step confirms at most one base of each kind, a read can only
      support the variant if it has at least as many entries left as
      either cursor has bases. */
  function Walk(es: seq<Entry>, refc: seq<char>, altc: seq<char>, target: Edit, merge: bool): (supported: bool)
    ensures supported ==> |es| >= |refc| && |es| >= |altc|
    decreases |es|
  {
    if |es| == 0 then refc == [] && altc == []
    else if refc == [] && altc == [] then !LogicalMerge(ObservedEdit(es[0]), target, merge)
    else Consumes(es[0], refc, altc) && Walk(es[1..], NextRef(es[0], refc), NextAlt(es[0], altc), target, merge)
  }

  /** Whether one step of the walk accepts entry `e`: an insertion must
      show the next alternate base, a deletion must have a reference base,
      and a match must show the next alternate base over the next reference
      base. Past the end of a cursor the expected base is `None`. */
  predicate Consumes(e: Entry, refc: seq<char>, altc: seq<char>) {
    match e.kind
    case Insertion => e.readNt == Head(altc)
    case Deletion => e.refNt.Some?
    case Match => e.readNt == Head(altc) && e.refNt == Head(refc)
  }

  /** The reference cursor after a step: everything but an insertion
      consumes one base. */
  function NextRef(e: Entry, refc: seq<char>): seq<char> {
    if e.kind == Insertion then refc else Tail(refc)
  }

  /** The alternate cursor after a step: everything but a deletion
      consumes one base. */
  function NextAlt(e: Entry, altc: seq<char>): seq<char> {
    if e.kind == Deletion then altc else Tail(altc)
  }

  /** What `validate` needs of a variant to run without a `u32` underflow:
      `start - 1 - 1` (`start - 1` for an insertion) and, for a deletion,
      `affected_length`'s `end - start + 1`. */
  predicate PanicFree(v: Variant) {
    && (if v.edit == Ins then v.start >= 1 else v.start >= 2)
    && (v.edit == Del ==> v.start <= v.end)
  }

  /** The 0-based reference position of the entry that sits next to the
      variant: the base before `start`, or `start` itself for an insertion,
      which sits between two reference bases. */
  function Threshold(v: Variant): (t: nat)
    requires PanicFree(v)
    ensures v.edit == Ins ==> t + 1 == v.start
    ensures v.edit != Ins ==> t + 2 == v.start
  {
    if v.edit == Ins then v.start - 1 else v.start - 2
  }

  /** `ref_pos() < Some(threshold)`; `None` orders below every `Some`, so
      an entry with no reference position lies before any threshold. */
  predicate Before(e: Entry, threshold: nat) {
    e.refPos.None? || e.refPos.value < threshold
  }

  /** `skip_while`: drop the longest prefix of entries that lie before the
      threshold. */
  function SkipLeading(es: seq<Entry>, threshold: nat): (rest: seq<Entry>)
    ensures |rest| <= |es| && rest == es[|es| - |rest|..]
    ensures forall i :: 0 <= i < |es| - |rest| ==> Before(es[i], threshold)
    ensures |rest| > 0 ==> !Before(rest[0], threshold)
  {
    if |es| == 0 || !Before(es[0], threshold) then es
    else SkipLeading(es[1..], threshold)
  }

  /** The expected reference bases: the reference run if the variant has
      one, otherwise `N` repeated `affected_length` times for a deletion,
      otherwise nothing. */
  function ExpectedRef(v: Variant): (bases: seq<char>)
    requires v.edit == Del ==> v.start <= v.end
    ensures v.refseq.Some? ==> bases == v.refseq.value
    ensures v.refseq.None? && v.edit == Del ==> |bases| == v.end - v.start + 1
    ensures v.refseq.None? && v.edit == Del ==> forall i :: 0 <= i < |bases| ==> bases[i] == 'N'
    ensures v.refseq.None? && v.edit != Del ==> bases == []
  {
    if v.refseq.Some? then v.refseq.value
    else if v.edit == Del then seq(AffectedLength(v), _ => 'N')
    else []
  }

  /** The expected alternate bases. */
  function ExpectedAlt(v: Variant): seq<char> {
    SeqOr(v.altseq)
  }

  /** The read's 1-based span `[start + 1, calculatedEnd]` shares at least
      one position with `[v.start, v.end]`. */
  predicate Overlaps(rec: Record, v: Variant) {
    rec.start + 1 <= v.end && v.start <= rec.calculatedEnd
  }

  /** `validate`. */
  function Validate(rec: Record, v: Variant, options: ValidateOptions): (verdict: Option<bool>)
    requires PanicFree(v)
    ensures verdict.None? <==>
              || !rec.mapped
              || !Overlaps(rec, v)
              || rec.entries.None?
              || |SkipLeading(rec.entries.value, Threshold(v))| == 0
    ensures verdict.Some? ==>
              var rest := SkipLeading(rec.entries.value, Threshold(v));
              LogicalMerge(ObservedEdit(rest[0]), v.edit, options.merge) ==> verdict == Some(false)
  {
    if !rec.mapped || rec.start + 1 > v.end || rec.calculatedEnd < v.start then None
    else if rec.entries.None? then None
    else
      var rest := SkipLeading(rec.entries.value, Threshold(v));
      if |rest| == 0 then None
      else if LogicalMerge(ObservedEdit(rest[0]), v.edit, options.merge) then Some(false)
      else
        var refc, altc := ExpectedRef(v), ExpectedAlt(v);
        if refc == [] && altc == [] && v.edit != Del then Some(true)
        else Some(Walk(rest[1..], refc, altc, v.edit, options.merge))
  }

  // ---------------------------------------------------------------------
  // What a supporting read looks like.

  /** The bases an entry shows for the alternate allele: the read base of
      an insertion or a match; a deletion shows none. */
  function AltContribution(e: Entry): seq<char> {
    if e.kind != Deletion && e.readNt.Some? then [e.readNt.value] else []
  }

  /** The alternate bases a run of entries spells. */
  function ReadAlt(es: seq<Entry>): seq<char> {
    if |es| == 0 then [] else AltContribution(es[0]) + ReadAlt(es[1..])
  }

  /** The reference base expected at place `i` of the reference cursor;
      past its end, none. */
  function ExpectedAt(refc: seq<char>, i: nat): Option<char> {
    if i < |refc| then Some(refc[i]) else None
  }

  /** How the walk checks an entry that stands on the reference against
      the base expected there: a deletion needs some reference base, a
      match or mismatch exactly the expected one. */
  predicate RefAgrees(e: Entry, expected: Option<char>) {
    if e.kind == Deletion then e.refNt.Some? else e.refNt == expected
  }

  /** The entries that stand on the reference: all but insertions. */
  function OnRef(es: seq<Entry>): seq<Entry> {
    if |es| == 0 then [] else (if es[0].kind == Insertion then [] else [es[0]]) + OnRef(es[1..])
  }

  /** A run of entries carries the expected reference bases: it has an
      entry on the reference for each of them, and each such entry agrees
      with the base expected at its place. */
  predicate ReadsRef(es: seq<Entry>, refc: seq<char>) {
    var on := OnRef(es);
    |on| >= |refc| && forall i :: 0 <= i < |on| ==> RefAgrees(on[i], ExpectedAt(refc, i))
  }

  /** A run of entries carries the variant: it spells exactly the expected
      alternate bases and carries the expected reference bases. */
  predicate Spells(es: seq<Entry>, refc: seq<char>, altc: seq<char>) {
    ReadAlt(es) == altc && ReadsRef(es, refc)
  }

  /** The walk never accepts a read that does not carry the variant: some
      prefix of the entries spells exactly the expected alternate bases
      and carries the expected reference bases, and the entry right after
      it, if there is one, does not conflict with the variant. */
  lemma {:induction false} WalkSound(es: seq<Entry>, refc: seq<char>, altc: seq<char>, target: Edit, merge: bool)
    requires Walk(es, refc, altc, target, merge)
    ensures exists k :: 0 <= k <= |es| && Spells(es[..k], refc, altc)
              && (k < |es| ==> !LogicalMerge(ObservedEdit(es[k]), target, merge))
  {
    if |es| == 0 || (refc == [] && altc == []) {
      assert es[..0] == [];
      assert Spells(es[..0], refc, altc);
    } else {
      var e := es[0];
      var refc', altc' := NextRef(e, refc), NextAlt(e, altc);
      StepSpellsAlt(e, refc, altc);
      WalkSound(es[1..], refc', altc', target, merge);
      var k' :| 0 <= k' <= |es[1..]| && Spells(es[1..][..k'], refc', altc')
                 && (k' < |es[1..]| ==> !LogicalMerge(ObservedEdit(es[1..][k']), target, merge));
      PrefixCons(es, k');
      ReadAltCons(es, k');
      StepReadsRef(e, es[1..][..k'], refc);
    }
  }

  /** An accepted step carries the reference base it consumes. */
  lemma StepReadsRef(e: Entry, rest: seq<Entry>, refc: seq<char>)
    requires e.kind != Insertion ==> RefAgrees(e, Head(refc))
    requires ReadsRef(rest, NextRef(e, refc))
    ensures ReadsRef([e] + rest, refc)
  {
    var es := [e] + rest;
    assert es[1..] == rest;
    if e.kind != Insertion {
      var on, on' := OnRef(es), OnRef(rest);
      assert on == [e] + on';
      forall i | 0 <= i < |on|
        ensures RefAgrees(on[i], ExpectedAt(refc, i))
      {
        if i > 0 {
          assert on[i] == on'[i - 1];
          assert ExpectedAt(Tail(refc), i - 1) == ExpectedAt(refc, i);
        }
      }
    }
  }

  /** An accepted step spells the alternate base it consumes. */
  lemma StepSpellsAlt(e: Entry, refc: seq<char>, altc: seq<char>)
    requires Consumes(e, refc, altc)
    ensures AltContribution(e) + NextAlt(e, altc) == altc
  {
    if e.kind != Deletion {
      assert e.readNt == Head(altc);
    }
  }

  /** A non-empty prefix is the first entry, then a prefix of the rest. */
  lemma PrefixCons(es: seq<Entry>, k: nat)
    requires k < |es|
    ensures es[..k + 1] == [es[0]] + es[1..][..k]
  {
  }

  /** Spelling a non-empty prefix: the first entry's bases, then the rest. */
  lemma ReadAltCons(es: seq<Entry>, k: nat)
    requires k < |es|
    ensures ReadAlt(es[..k + 1]) == AltContribution(es[0]) + ReadAlt(es[1..][..k])
  {
    assert es[..k + 1][1..] == es[1..][..k];
  }

  /** The entries of a read that carries the edit base for base at 0-based
      position `pos`: reference and alternate bases paired as matches or
      mismatches, surplus reference bases as deletions, surplus alternate
      bases as insertions. */
  function Carrying(refc: seq<char>, altc: seq<char>, pos: nat): (es: seq<Entry>)
    ensures |es| == if |refc| >= |altc| then |refc| else |altc|
    decreases |refc| + |altc|
  {
    if |refc| > 0 && |altc| > 0 then
      [Entry(Match, Some(pos), Some(refc[0]), Some(altc[0]))] + Carrying(refc[1..], altc[1..], pos + 1)
    else if |refc| > 0 then
      [Entry(Deletion, Some(pos), Some(refc[0]), None)] + Carrying(refc[1..], altc, pos + 1)
    else if |altc| > 0 then
      [Entry(Insertion, None, None, Some(altc[0]))] + Carrying(refc, altc[1..], pos)
    else []
  }

  /** A read that carries the edit and then either ends or goes on without
      a conflicting edit is accepted by the walk. */
  lemma {:induction false} WalkComplete(refc: seq<char>, altc: seq<char>, pos: nat, tail: seq<Entry>, target: Edit, merge: bool)
    requires tail == [] || !LogicalMerge(ObservedEdit(tail[0]), target, merge)
    ensures Walk(Carrying(refc, altc, pos) + tail, refc, altc, target, merge)
    decreases |refc| + |altc|
  {
    var es := Carrying(refc, altc, pos) + tail;
    if |refc| == 0 && |altc| == 0 {
      assert es == tail;
    } else {
      var refc', altc', pos' := CarryingStep(refc, altc, pos, tail);
      WalkComplete(refc', altc', pos', tail, target, merge);
      WalkUnfold(es, refc, altc, target, merge);
    }
  }

  /** The first entry of a carrying read is accepted, and the entries after
      it carry what is left of the two cursors. */
  lemma CarryingStep(refc: seq<char>, altc: seq<char>, pos: nat, tail: seq<Entry>)
    returns (refc': seq<char>, altc': seq<char>, pos': nat)
    requires |refc| > 0 || |altc| > 0
    ensures var es := Carrying(refc, altc, pos) + tail;
            && Consumes(es[0], refc, altc)
            && refc' == NextRef(es[0], refc) && altc' == NextAlt(es[0], altc)
            && |refc'| + |altc'| < |refc| + |altc|
            && es[1..] == Carrying(refc', altc', pos') + tail
  {
    var c := Carrying(refc, altc, pos);
    if |refc| > 0 && |altc| > 0 {
      refc', altc', pos' := refc[1..], altc[1..], pos + 1;
    } else if |refc| > 0 {
      refc', altc', pos' := refc[1..], altc, pos + 1;
    } else {
      refc', altc', pos' := refc, altc[1..], pos;
    }
    assert c == [c[0]] + Carrying(refc', altc', pos');
    assert (c + tail)[1..] == c[1..] + tail;
  }

  /** One step of the walk: while a cursor has bases left, a read is
      accepted exactly when its first entry is and the rest of it is
      accepted for what remains. */
  lemma WalkUnfold(es: seq<Entry>, refc: seq<char>, altc: seq<char>, target: Edit, merge: bool)
    requires |es| > 0 && (refc != [] || altc != [])
    ensures Walk(es, refc, altc, target, merge)
        <==> Consumes(es[0], refc, altc) && Walk(es[1..], NextRef(es[0], refc), NextAlt(es[0], altc), target, merge)
  {
  }

  /** Turning `merge` on can only turn support into refutation. */
  lemma {:induction false} WalkMergeMonotone(es: seq<Entry>, refc: seq<char>, altc: seq<char>, target: Edit)
    requires Walk(es, refc, altc, target, true)
    ensures Walk(es, refc, altc, target, false)
    decreases |es|
  {
    if |es| > 0 {
      if refc == [] && altc == [] {
        LogicalMergeMonotone(ObservedEdit(es[0]), target);
      } else {
        WalkMergeMonotone(es[1..], NextRef(es[0], refc), NextAlt(es[0], altc), target);
      }
    }
  }

  lemma {:induction false} SkipLeadingPrefix(lead: seq<Entry>, rest: seq<Entry>, threshold: nat)
    requires forall i :: 0 <= i < |lead| ==> Before(lead[i], threshold)
    requires rest == [] || !Before(rest[0], threshold)
    ensures SkipLeading(lead + rest, threshold) == rest
  {
    if |lead| == 0 {
      assert lead + rest == rest;
    } else {
      assert (lead + rest)[1..] == lead[1..] + rest;
      SkipLeadingPrefix(lead[1..], rest, threshold);
    }
  }

  /** What `Some(true)` from `validate` guarantees: the read is mapped and
      overlaps the variant, the entry next to the variant does not conflict
      with it, and the entries after that entry begin with a run that
      spells the expected alternate bases and carries the expected
      reference bases. Unless the variant expects nothing at all, the entry
      after that run, if any, does not conflict with it either. */
  lemma ValidateSound(rec: Record, v: Variant, options: ValidateOptions)
    requires PanicFree(v)
    requires Validate(rec, v, options) == Some(true)
    ensures rec.mapped && Overlaps(rec, v) && rec.entries.Some?
    ensures var rest := SkipLeading(rec.entries.value, Threshold(v));
            && |rest| > 0
            && !LogicalMerge(ObservedEdit(rest[0]), v.edit, options.merge)
            && var after := rest[1..];
               exists k :: 0 <= k <= |after| && Spells(after[..k], ExpectedRef(v), ExpectedAlt(v))
                 && ((k < |after| && (ExpectedRef(v) != [] || ExpectedAlt(v) != [] || v.edit == Del))
                     ==> !LogicalMerge(ObservedEdit(after[k]), v.edit, options.merge))
  {
    var rest := SkipLeading(rec.entries.value, Threshold(v));
    var after := rest[1..];
    if ExpectedRef(v) == [] && ExpectedAlt(v) == [] && v.edit != Del {
      assert after[..0] == [];
      assert Spells(after[..0], ExpectedRef(v), ExpectedAlt(v));
    } else {
      WalkSound(after, ExpectedRef(v), ExpectedAlt(v), v.edit, options.merge);
    }
  }

  /** A mapped, overlapping read whose entries, after the ones lying before
      the variant, are a non-conflicting entry next to the variant and then
      the variant's own bases, supports it. */
  lemma ValidateComplete(rec: Record, v: Variant, options: ValidateOptions,
                         lead: seq<Entry>, boundary: Entry, pos: nat, tail: seq<Entry>)
    requires PanicFree(v)
    requires rec.mapped && Overlaps(rec, v)
    requires rec.entries == Some(lead + ([boundary] + (Carrying(ExpectedRef(v), ExpectedAlt(v), pos) + tail)))
    requires forall i :: 0 <= i < |lead| ==> Before(lead[i], Threshold(v))
    requires !Before(boundary, Threshold(v))
    requires !LogicalMerge(ObservedEdit(boundary), v.edit, options.merge)
    requires tail == [] || !LogicalMerge(ObservedEdit(tail[0]), v.edit, options.merge)
    ensures Validate(rec, v, options) == Some(true)
  {
    var after := Carrying(ExpectedRef(v), ExpectedAlt(v), pos) + tail;
    SkipLeadingPrefix(lead, [boundary] + after, Threshold(v));
    assert ([boundary] + after)[1..] == after;
    WalkComplete(ExpectedRef(v), ExpectedAlt(v), pos, tail, v.edit, options.merge);
  }

  /** A mapped, overlapping read refutes the variant when the entry next
      to it conflicts with it, or when the walk rejects the entries after
      that one. */
  lemma ValidateRefutes(rec: Record, v: Variant, options: ValidateOptions,
                        lead: seq<Entry>, boundary: Entry, after: seq<Entry>)
    requires PanicFree(v)
    requires rec.mapped && Overlaps(rec, v)
    requires rec.entries == Some(lead + ([boundary] + after))
    requires forall i :: 0 <= i < |lead| ==> Before(lead[i], Threshold(v))
    requires !Before(boundary, Threshold(v))
    requires ExpectedRef(v) != [] || ExpectedAlt(v) != [] || v.edit == Del
    requires || LogicalMerge(ObservedEdit(boundary), v.edit, options.merge)
             || !Walk(after, ExpectedRef(v), ExpectedAlt(v), v.edit, options.merge)
    ensures Validate(rec, v, options) == Some(false)
  {
    SkipLeadingPrefix(lead, [boundary] + after, Threshold(v));
    assert ([boundary] + after)[1..] == after;
  }

  /** A mapped, overlapping read whose boundary entry does not conflict
      with the variant, and whose entries after it the walk accepts,
      supports it. */
  lemma ValidateAccepts(rec: Record, v: Variant, options: ValidateOptions,
                        lead: seq<Entry>, boundary: Entry, after: seq<Entry>)
    requires PanicFree(v)
    requires rec.mapped && Overlaps(rec, v)
    requires rec.entries == Some(lead + ([boundary] + after))
    requires forall i :: 0 <= i < |lead| ==> Before(lead[i], Threshold(v))
    requires !Before(boundary, Threshold(v))
    requires !LogicalMerge(ObservedEdit(boundary), v.edit, options.merge)
    requires Walk(after, ExpectedRef(v), ExpectedAlt(v), v.edit, options.merge)
    ensures Validate(rec, v, options) == Some(true)
  {
    SkipLeadingPrefix(lead, [boundary] + after, Threshold(v));
    assert ([boundary] + after)[1..] == after;
  }

  /** A deletion-insertion written without its reference run expects no
      reference base, so a read that shows the entry after the boundary as
      a match or mismatch over a reference base refutes it. */
  lemma DelinsMismatchRefutes(rec: Record, v: Variant, options: ValidateOptions,
                              lead: seq<Entry>, boundary: Entry, e: Entry, tail: seq<Entry>)
    requires PanicFree(v)
    requires v.edit == Delins && v.refseq.None? && ExpectedAlt(v) != []
    requires rec.mapped && Overlaps(rec, v)
    requires rec.entries == Some(lead + ([boundary] + ([e] + tail)))
    requires forall i :: 0 <= i < |lead| ==> Before(lead[i], Threshold(v))
    requires !Before(boundary, Threshold(v))
    requires e.kind == Match && e.refNt.Some?
    ensures Validate(rec, v, options) == Some(false)
  {
    assert ExpectedRef(v) == [];
    WalkUnfold([e] + tail, [], ExpectedAlt(v), Delins, options.merge);
    ValidateRefutes(rec, v, options, lead, boundary, [e] + tail);
  }

  /** With `merge` set a read is counted as support only if it is also
      support without it; the two settings never differ on `None`. */
  lemma ValidateMergeMonotone(rec: Record, v: Variant)
    requires PanicFree(v)
    ensures Validate(rec, v, ValidateOptions(true)).None? <==> Validate(rec, v, ValidateOptions(false)).None?
    ensures Validate(rec, v, ValidateOptions(true)) == Some(true) ==> Validate(rec, v, ValidateOptions(false)) == Some(true)
  {
    if Validate(rec, v, ValidateOptions(true)) == Some(true) {
      var rest := SkipLeading(rec.entries.value, Threshold(v));
      LogicalMergeMonotone(ObservedEdit(rest[0]), v.edit);
      if !(ExpectedRef(v) == [] && ExpectedAlt(v) == [] && v.edit != Del) {
        WalkMergeMonotone(rest[1..], ExpectedRef(v), ExpectedAlt(v), v.edit);
      }
    }
  }

  // ---------------------------------------------------------------------
  // Invented reads consistent with the outcomes the repository's tests
  // assert.

  /** The path through `validate` that ends in the walk. */
  lemma ValidateReachesWalk(rec: Record, v: Variant, options: ValidateOptions)
    requires PanicFree(v)
    requires rec.mapped && Overlaps(rec, v) && rec.entries.Some?
    requires var rest := SkipLeading(rec.entries.value, Threshold(v));
             |rest| > 0 && !LogicalMerge(ObservedEdit(rest[0]), v.edit, options.merge)
    requires ExpectedRef(v) != [] || ExpectedAlt(v) != [] || v.edit == Del
    ensures Validate(rec, v, options)
         == Some(Walk(SkipLeading(rec.entries.value, Threshold(v))[1..], ExpectedRef(v), ExpectedAlt(v), v.edit, options.merge))
  {
  }

  /** A read base `readNt` aligned to reference base `refNt` at `pos`. */
  function MatchAt(pos: nat, refNt: char, readNt: char): Entry {
    Entry(Match, Some(pos), Some(refNt), Some(readNt))
  }

  /** A read base with no reference base. */
  function Inserted(readNt: char): Entry {
    Entry(Insertion, None, None, Some(readNt))
  }

  /** A reference base at `pos` that the read skips. */
  function Deleted(pos: nat, refNt: char): Entry {
    Entry(Deletion, Some(pos), Some(refNt), None)
  }

  /** A read showing a clean three-base insertion of `CCC` between
      1-based positions 144852532 and 144852533. */
  function InsertionRead(): Record {
    Record(true, 144852500, 144852600,
           Some([MatchAt(144852530, 'A', 'A'), MatchAt(144852531, 'G', 'G'), Inserted('C'), Inserted('C'), Inserted('C'), MatchAt(144852532, 'T', 'T')]))
  }

  /** That read supports `1:144852532_144852533insCCC` ... */
  lemma InsertionScenarioSupports(rec: Record, v: Variant)
    requires rec == InsertionRead()
    requires v == Variant("1", 144852532, 144852533, Ins, None, Some("CCC"))
    ensures Validate(rec, v, DefaultOptions) == Some(true)
  {
    var lead, boundary, tail := [MatchAt(144852530, 'A', 'A')], MatchAt(144852531, 'G', 'G'), [MatchAt(144852532, 'T', 'T')];
    var p := 144852532;
    assert ExpectedRef(v) == [] && ExpectedAlt(v) == "CCC";
    assert Carrying([], "C", p) == [Inserted('C')];
    assert "CC"[1..] == "C";
    assert Carrying([], "CC", p) == [Inserted('C'), Inserted('C')];
    assert "CCC"[1..] == "CC";
    assert Carrying([], "CCC", p) == [Inserted('C'), Inserted('C'), Inserted('C')];
    assert rec.entries.value == lead + ([boundary] + ([Inserted('C'), Inserted('C'), Inserted('C')] + tail));
    ValidateComplete(rec, v, DefaultOptions, lead, boundary, p, tail);
  }

  /** ... and refutes the insertion of `CCG` at the same place, since no
      entry of it shows a `G`. */
  lemma InsertionScenarioRefutes(rec: Record, v: Variant)
    requires rec == InsertionRead()
    requires v == Variant("1", 144852532, 144852533, Ins, None, Some("CCG"))
    ensures Validate(rec, v, DefaultOptions) == Some(false)
  {
    var es := rec.entries.value;
    var after := es[2..];
    assert es == [es[0]] + ([es[1]] + after);
    assert "CCG"[1..] == "CG" && "CG"[1..] == "G";
    WalkUnfold(after[2..], [], "G", Ins, false);
    WalkUnfold(after[1..], [], "CG", Ins, false);
    assert after[1..][1..] == after[2..];
    WalkUnfold(after, [], "CCG", Ins, false);
    ValidateRefutes(rec, v, DefaultOptions, [es[0]], es[1], after);
  }

  /** Two adjacent substitutions, `T>C` at 144854597 and `C>T` at
      144854598, on one read. */
  function MergeRead(): Record {
    Record(true, 144854550, 144854650,
           Some([MatchAt(144854595, 'G', 'G'), MatchAt(144854596, 'T', 'C'), MatchAt(144854597, 'C', 'T'), MatchAt(144854598, 'A', 'A')]))
  }

  /** With `merge` off each substitution of that read supports its own
      variant: the first ... */
  lemma MergeScenarioPermissiveFirst(rec: Record, first: Variant)
    requires rec == MergeRead()
    requires first == Variant("1", 144854597, 144854597, Sub, Some("T"), Some("C"))
    ensures Validate(rec, first, ValidateOptions(false)) == Some(true)
  {
    var es := rec.entries.value;
    assert Carrying("T", "C", 144854596) == [es[1]];
    assert es == [] + ([es[0]] + ([es[1]] + es[2..]));
    ValidateComplete(rec, first, ValidateOptions(false), [], es[0], 144854596, es[2..]);
  }

  /** ... and the second ... */
  lemma MergeScenarioPermissiveSecond(rec: Record, second: Variant)
    requires rec == MergeRead()
    requires second == Variant("1", 144854598, 144854598, Sub, Some("C"), Some("T"))
    ensures Validate(rec, second, ValidateOptions(false)) == Some(true)
  {
    var es := rec.entries.value;
    assert Carrying("C", "T", 144854597) == [es[2]];
    assert es == [es[0]] + ([es[1]] + ([es[2]] + es[3..]));
    ValidateComplete(rec, second, ValidateOptions(false), [es[0]], es[1], 144854597, es[3..]);
  }

  /** ... and with `merge` on each refutes its variant, because the
      neighbouring substitution then counts as a conflict: for the first,
      the one after it ... */
  lemma MergeScenarioStrictFirst(rec: Record, first: Variant)
    requires rec == MergeRead()
    requires first == Variant("1", 144854597, 144854597, Sub, Some("T"), Some("C"))
    ensures Validate(rec, first, ValidateOptions(true)) == Some(false)
  {
    var es := rec.entries.value;
    var after := es[1..];
    assert es == [] + ([es[0]] + after);
    WalkUnfold(after, "T", "C", Sub, true);
    assert !Walk(after[1..], [], [], Sub, true) by {
      assert ObservedEdit(after[1..][0]) == Sub;
    }
    ValidateRefutes(rec, first, ValidateOptions(true), [], es[0], after);
  }

  /** ... and for the second, the one before it. */
  lemma MergeScenarioStrictSecond(rec: Record, second: Variant)
    requires rec == MergeRead()
    requires second == Variant("1", 144854598, 144854598, Sub, Some("C"), Some("T"))
    ensures Validate(rec, second, ValidateOptions(true)) == Some(false)
  {
    var es := rec.entries.value;
    assert es == [es[0]] + ([es[1]] + es[2..]);
    assert ObservedEdit(es[1]) == Sub;
    ValidateRefutes(rec, second, ValidateOptions(true), [es[0]], es[1], es[2..]);
  }

  /** A read with `T` where the reference has `C`. */
  function SnvRead(): Record {
    Record(true, 144852500, 144852600, Some([MatchAt(144852543, 'G', 'G'), MatchAt(144852544, 'C', 'T'), MatchAt(144852545, 'A', 'A')]))
  }

  /** That read supports `C>T` at 144852545 ... */
  lemma SnvScenarioSupports(rec: Record, v: Variant)
    requires rec == SnvRead()
    requires v == Variant("1", 144852545, 144852545, Sub, Some("C"), Some("T"))
    ensures Validate(rec, v, DefaultOptions) == Some(true)
  {
    var es := rec.entries.value;
    assert Carrying("C", "T", 144852544) == [es[1]];
    assert es == [] + ([es[0]] + ([es[1]] + es[2..]));
    ValidateComplete(rec, v, DefaultOptions, [], es[0], 144852544, es[2..]);
  }

  /** ... and refutes `C>A` there. */
  lemma SnvScenarioRefutes(rec: Record, v: Variant)
    requires rec == SnvRead()
    requires v == Variant("1", 144852545, 144852545, Sub, Some("C"), Some("A"))
    ensures Validate(rec, v, DefaultOptions) == Some(false)
  {
    var es := rec.entries.value;
    var after := es[1..];
    assert es == [] + ([es[0]] + after);
    WalkUnfold(after, "C", "A", Sub, false);
    ValidateRefutes(rec, v, DefaultOptions, [], es[0], after);
  }

  /** A read on which both `1:144854047_144854048delinsTG` and
      `1:144854049C>G` are supported. Since no reference base is expected
      for the deletion-insertion, it shows `TG` as an insertion after the
      base before the variant; the substitution is a mismatch with a clean
      neighbour on each side. */
  function MultipleSnpRead(): Record {
    Record(true, 144854000, 144854100,
           Some([MatchAt(144854045, 'A', 'A'), Inserted('T'), Inserted('G'), MatchAt(144854046, 'C', 'C'),
                 MatchAt(144854047, 'A', 'A'), MatchAt(144854048, 'C', 'G'), MatchAt(144854049, 'T', 'T')]))
  }

  /** That read supports the deletion-insertion ... */
  lemma MultipleSnpScenarioDelins(rec: Record, v: Variant)
    requires rec == MultipleSnpRead()
    requires v == Variant("1", 144854047, 144854048, Delins, None, Some("TG"))
    ensures Validate(rec, v, DefaultOptions) == Some(true)
  {
    var es := rec.entries.value;
    var p := 144854046;
    assert ExpectedRef(v) == [] && ExpectedAlt(v) == "TG";
    assert "TG"[1..] == "G";
    assert Carrying([], "G", p) == [es[2]];
    assert Carrying([], "TG", p) == [es[1], es[2]];
    assert es == [] + ([es[0]] + ([es[1], es[2]] + es[3..]));
    ValidateComplete(rec, v, DefaultOptions, [], es[0], p, es[3..]);
  }

  /** ... and the substitution after it. */
  lemma MultipleSnpScenarioSub(rec: Record, v: Variant)
    requires rec == MultipleSnpRead()
    requires v == Variant("1", 144854049, 144854049, Sub, Some("C"), Some("G"))
    ensures Validate(rec, v, DefaultOptions) == Some(true)
  {
    var es := rec.entries.value;
    assert Carrying("C", "G", 144854048) == [es[5]];
    assert es == es[..4] + ([es[4]] + ([es[5]] + es[6..]));
    ValidateComplete(rec, v, DefaultOptions, es[..4], es[4], 144854048, es[6..]);
  }

  /** A read showing three adjacent mismatches, `TG` over the reference
      `AC` at 144854047-144854048 and `G` over `C` at 144854049, refutes
      `1:144854047_144854048delinsTG`: the entry after the base before the
      variant carries a reference base, which the deletion-insertion
      written without its reference run does not expect. */
  lemma MultipleSnpMismatchesRefuted(rec: Record, v: Variant)
    requires rec == Record(true, 144854000, 144854100,
                           Some([MatchAt(144854045, 'A', 'A'), MatchAt(144854046, 'A', 'T'), MatchAt(144854047, 'C', 'G'),
                                 MatchAt(144854048, 'C', 'G'), MatchAt(144854049, 'T', 'T')]))
    requires v == Variant("1", 144854047, 144854048, Delins, None, Some("TG"))
    ensures Validate(rec, v, DefaultOptions) == Some(false)
  {
    var es := rec.entries.value;
    assert es == [] + ([es[0]] + ([es[1]] + es[2..]));
    DelinsMismatchRefutes(rec, v, DefaultOptions, [], es[0], es[1], es[2..]);
  }

  /** A read that skips the reference bases at 1-based 144852633 and
      144852634 and matches the reference on either side. */
  function DeletionRead(): Record {
    Record(true, 144852600, 144852700,
           Some([MatchAt(144852630, 'A', 'A'), MatchAt(144852631, 'G', 'G'), Deleted(144852632, 'T'),
                 Deleted(144852633, 'C'), MatchAt(144852634, 'A', 'A')]))
  }

  /** That read supports `1:144852633_144852634del`: each deleted position
      stands for one expected `N`, whatever the reference base there ... */
  lemma DeletionScenarioSupports(rec: Record, v: Variant)
    requires rec == DeletionRead()
    requires v == Variant("1", 144852633, 144852634, Del, None, None)
    ensures Validate(rec, v, DefaultOptions) == Some(true)
  {
    var es := rec.entries.value;
    var after := es[2..];
    assert ExpectedRef(v) == "NN" && ExpectedAlt(v) == [];
    assert es == [es[0]] + ([es[1]] + after);
    assert "NN"[1..] == "N";
    assert after[1..][1..] == after[2..];
    assert Walk(after[2..], [], [], Del, false);
    WalkUnfold(after[1..], "N", [], Del, false);
    WalkUnfold(after, "NN", [], Del, false);
    ValidateAccepts(rec, v, DefaultOptions, [es[0]], es[1], after);
  }

  /** ... and refutes `1:144852633_144852635del`, since the base at
      144852635 is still on the read. */
  lemma DeletionScenarioRefutes(rec: Record, v: Variant)
    requires rec == DeletionRead()
    requires v == Variant("1", 144852633, 144852635, Del, None, None)
    ensures Validate(rec, v, DefaultOptions) == Some(false)
  {
    var es := rec.entries.value;
    var after := es[2..];
    assert ExpectedRef(v) == "NNN";
    assert es == [es[0]] + ([es[1]] + after);
    assert "NNN"[1..] == "NN" && "NN"[1..] == "N";
    assert after[1..][1..] == after[2..];
    WalkUnfold(after[2..], "N", [], Del, false);
    WalkUnfold(after[1..], "NN", [], Del, false);
    WalkUnfold(after, "NNN", [], Del, false);
    ValidateRefutes(rec, v, DefaultOptions, [es[0]], es[1], after);
  }
}
