# variants-linkage in Dafny

A model of the core of `variants-linkage`, a tool that decides whether two
small genomic variants sit on the same chromosome copy. The binary checks
each aligned sequencing read against both variants and prints four read
counts: reads supporting both variants, only the first, only the second, or
neither. It draws no conclusion itself. The library function
`Link::infer_linkage` (modelled in `links.dfy`) is what classifies such
counts as a linkage relationship: cis, trans, super, sub or cross.

The modules follow the source files:

- `decimal.dfy` (`Decimal`): decimal digit strings and their values. This
  is what `digit1` with `parse::<u32>` reads and what `{}` prints.
- `variants.dfy` (`Variants`): `src/variant.rs`. It covers:
  - the `Edit` kinds and the `Variant` record;
  - the combinator parser for `contig:start[_end][REF](>|ins|delins|del)[ALT]`;
  - `affected_length`.

  Parsers return the parsed value together with the input left over, as
  nom's `IResult` does. Parse failures are a `ParseError` value naming the
  step that failed.
- `validation.dfy` (`Validation`): `src/validate.rs`. It covers:
  - `logical_merge`, the conflict table between an observed edit and the
    target edit;
  - `ValidateOptions`;
  - `validate`, the per-read verdict.

  A read is modelled by three things: whether it is mapped, its span, and
  its alignment entries. Each entry has a kind (insertion, deletion or
  match), an optional 0-based reference position, an optional reference
  base and an optional read base.
- `links.dfy` (`Links`): `src/link.rs`. It covers:
  - the read counts and the five linkage rules;
  - `infer_linkage`;
  - the JSON-like `Display` of a `Link`.

  The `f32` ratios are compared exactly, by cross-multiplying by 100. A
  zero denominator behaves as IEEE division does: `0/0` is NaN and fails
  every comparison, and `x/0` with `x > 0` is infinite.
- `driver.dfy` (`Driver`): the pure steps of `src/main.rs`:
  - `get_merge_region`, with the reference header given as a map from
    contig name to reference id;
  - the per-read tally;
  - the run from two variant strings to the four counts, with the reads of
    a region supplied by a `fetch` function.

Where the source would panic on `u32` underflow, the model requires the
variant to avoid it (`Validation.PanicFree`). That covers `start - 1 - 1`
in `validate`, and `end - start + 1` in `affected_length` for a
deletion.

## Model

| member | source | states |
|---|---|---|
| Decimal.ValueShow | src/variant.rs:61-66 | Printing a number in decimal and reading the digits back gives the number again. |
| Variants.ParseContig | src/variant.rs:56-59 | The contig parse succeeds exactly when the input has a ':'. The contig is the text before the first ':', and the rest starts at that ':'. |
| Variants.ParseContigAppend | src/variant.rs:56-59 | For a contig without ':' followed by text that starts with ':', the parse yields exactly that contig and that text. |
| Variants.SpanMaximal | src/variant.rs:56-72 | The run a scanner consumes is made of characters of its class, and it stops only at the end of the input or at a character outside the class. |
| Variants.Digits | src/variant.rs:62-63 | Reading digits succeeds exactly when the input starts with a digit, and it always consumes input. The number read is stated by `Variants.DigitsRead`. |
| Variants.DigitsRead | src/variant.rs:62-63 | The input starts with the run that was read, the run is all digits and cannot be extended, and the number is the decimal value of that run, leading zeros included. |
| Variants.DigitsShow | src/variant.rs:62-63 | A number printed in decimal and followed by a non-digit reads back as that number, with exactly the following text left over. |
| Variants.ParsePosition | src/variant.rs:61-67 | The position parse succeeds exactly when the input starts with a digit, and it always consumes input. The numbers read are stated by `Variants.ParsePositionDigits`. |
| Variants.ParsePositionDigits | src/variant.rs:61-67 | The start is the value of the leading digit run. When `_` and a digit follow that run, the end is the value of the second run and reading stops after it. Otherwise the end is the start and reading stops after the first run. |
| Variants.ParsePositionText | src/variant.rs:61-67 | `start` or `start_end`, printed in decimal and followed by a non-digit other than '_', parses back to (start, end). A lone start gives end = start. |
| Variants.ParsePositionExamples | src/variant.rs:192-202 | `12345_12346del` gives (12345, 12346) with `del` left over. `12345A>G` gives (12345, 12345) with `A>G` left over. |
| Variants.ParseSequence | src/variant.rs:69-72 | Succeeds exactly on input that starts with one of A, T, C, G, N. It takes the longest such run: the run is non-empty, and what follows does not start with a base. |
| Variants.OptSequenceText | src/variant.rs:159-163 | An optional sequence field followed by a non-base is read back as exactly that field. |
| Variants.ParseEdit | src/variant.rs:74-95 | Fails exactly when the input starts with none of `>`, `ins`, `del`. On success the edit is not Identity, and its tag is a prefix of the input. |
| Variants.ParseEditDelinsFirst | src/variant.rs:79-90 | `delins` is recognised as Delins and consumes all six characters, because it is tried before `del`. |
| Variants.ParseEditText | src/variant.rs:74-95 | Each edit's tag followed by the rest parses as that edit. For `del`, the rest must not start with `ins`. |
| Variants.ParseFields | src/variant.rs:157-183 | A successful parse keeps the contig, never yields Identity, and yields non-empty base runs. Every edit except `del` carries a reference or an alternate sequence. |
| Variants.ParseFieldsText | src/variant.rs:157-183 | The position, sequence, tag and sequence fields of a well-formed variant, printed in order, parse back to that variant. |
| Variants.Parse | src/variant.rs:152-185 | Input without ':' fails with NoContigSeparator. Every success is well formed, and the input starts with its contig followed by ':'. |
| Variants.ParseAfterContig | src/variant.rs:154-155 | For a contig without ':', parsing `contig:fields` is parsing the fields under that contig. |
| Variants.ParseFormat | src/variant.rs:152-185 | Round trip: every well-formed variant, printed in the notation, parses back to itself. Appending text that is not a base and not 'i' fails with TrailingInput. |
| Variants.ParseSnvExample | src/variant.rs:204-219 | `1:12345A>G` parses to the substitution A>G at 12345..12345 on contig 1. |
| Variants.ParseInsertionExample | src/variant.rs:221-236 | `1:12345_12346insATCG` parses to an insertion of ATCG at 12345..12346 with no reference sequence. |
| Variants.ParseDeletionExample | src/variant.rs:238-253 | `1:12345_12346del` parses to a deletion at 12345..12346 with neither sequence. |
| Variants.ParseRange | src/variant.rs:152-185 | A range `contig:a_b`, then any edit tag, then the alternate run, parses to that edit over a..b with no reference run. A `delins` tag is read whole and never cut short to `del`. |
| Variants.ParseUnknownEdit | src/variant.rs:87-94 | After the position and reference sequence, input that starts with no edit tag fails with UnknownEdit. |
| Variants.ParseMissingSequence | src/variant.rs:172-177 | A `>`, `ins` or `delins` edit with neither sequence fails with MissingSequence. |
| Variants.AffectedLength | src/variant.rs:123-134 | For a deletion, the length is the number of positions from start to end inclusive. For an insertion, it is the alternate length. For a substitution it is 1, and for Identity it is 0. For a delins, it is the larger of the two sequence lengths. |
| Validation.LogicalMerge | src/validate.rs:18-34 | Identity on either side never conflicts. An observed Delins against a target Sub conflicts only with merge on. Any other Delins always conflicts. The same non-Sub simple edit always conflicts. Different simple edits, or a Sub, conflict only with merge on. |
| Validation.LogicalMergeMonotone | src/validate.rs:18-34 | Turning merge on never removes a conflict. |
| Validation.ObservedEdit | src/validate.rs:122-130 | An entry reads as Ins exactly when it is an insertion, and as Del exactly when it is a deletion. A match entry reads as Identity exactly when its two bases agree, and as Sub otherwise. |
| Validation.SkipLeading | src/validate.rs:70-76 | The result is a suffix of the entries. Every entry dropped lies before the threshold, and the first entry kept does not. |
| Validation.SkipLeadingPrefix | src/validate.rs:70-73 | For a prefix of entries before the threshold, followed by entries whose first is not, exactly the prefix is dropped. |
| Validation.Threshold | src/validate.rs:71-73 | The boundary is the 0-based position of the reference base just before the variant, two below the 1-based start. For an insertion it is the base the insertion follows, one below the 1-based start. |
| Validation.ExpectedRef | src/validate.rs:99-105 | The expected reference bases are the variant's reference sequence when it has one. A deletion without one expects one N per deleted position. Any other edit expects nothing. |
| Validation.Walk | src/validate.rs:115-162 | A read can support the variant only if it has at least as many entries left as there are expected reference bases, and as many as there are expected alternate bases. |
| Validation.WalkSound | src/validate.rs:115-162 | If the walk accepts, some prefix of the entries spells exactly the expected alternate bases. The same prefix has an entry on the reference for every expected reference base, and each of those entries agrees with the base expected at its place: a deletion has some reference base, and a match has exactly that base. The entry after the prefix, if any, does not conflict with the target. |
| Validation.WalkComplete | src/validate.rs:115-162 | A run of entries carrying exactly the expected bases is accepted when it is followed by nothing or by a non-conflicting entry. |
| Validation.WalkMergeMonotone | src/validate.rs:132-141 | A walk that accepts with merge on also accepts with merge off. |
| Validation.Validate | src/validate.rs:61-163 | There is no verdict exactly when the read is unmapped, misses the variant's span, has no alignment entries, or has no entry at or after the boundary. A conflicting boundary entry always refutes. |
| Validation.ValidateSound | src/validate.rs:61-163 | A supporting read is mapped, overlaps the variant and has a non-conflicting boundary entry. The entries after the boundary begin with a run that spells the expected alternate bases and carries the expected reference bases. Unless the variant expects no bases at all, the entry after that run, if any, does not conflict either. |
| Validation.ValidateComplete | src/validate.rs:61-163 | A mapped, overlapping read whose entries are a clean boundary, then the expected bases, then a non-conflicting entry, supports the variant. |
| Validation.ValidateRefutes | src/validate.rs:61-163 | A mapped, overlapping read with something to check is refuted when the boundary entry conflicts, or when the walk rejects the entries after it. |
| Validation.ValidateAccepts | src/validate.rs:61-163 | A mapped, overlapping read with a non-conflicting boundary entry, whose following entries the walk accepts, supports the variant. |
| Validation.DelinsMismatchRefutes | src/validate.rs:99-115 | A deletion-insertion written without its reference run expects no reference base. So it is refuted by a read whose entry after the boundary is a match or mismatch that carries a reference base. |
| Validation.ValidateMergeMonotone | src/validate.rs:84-97 | Merge does not change whether a read gets a verdict. A read that supports the variant with merge on also supports it with merge off. |
| Validation.InsertionScenarioSupports | tests/test_record_validate.rs:7-24 | A read showing CCC between 144852532 and 144852533 supports the insertion of CCC there. |
| Validation.InsertionScenarioRefutes | tests/test_record_validate.rs:37-42 | The same read refutes the insertion of CCG there. |
| Validation.DeletionScenarioSupports | tests/test_record_validate.rs:45-73 | An invented read that skips the reference bases at 144852633 and 144852634 supports `1:144852633_144852634del`. Each deleted position stands for one expected N, whatever the reference base there. |
| Validation.DeletionScenarioRefutes | tests/test_record_validate.rs:74-80 | The same read refutes `1:144852633_144852635del`, because the base at 144852635 is still on the read. |
| Validation.SnvScenarioSupports | tests/test_record_validate.rs:83-100 | A read with T over reference C at 144852545 supports C>T. |
| Validation.SnvScenarioRefutes | tests/test_record_validate.rs:101-103 | The same read refutes C>A. |
| Validation.MergeScenarioStrictFirst | tests/test_record_validate.rs:122-125 | On a read with adjacent substitutions T>C at 144854597 and C>T at 144854598, merge on refutes the first: the next substitution conflicts. |
| Validation.MergeScenarioStrictSecond | tests/test_record_validate.rs:122-126 | With merge on, the same read refutes the second: the substitution before it conflicts. |
| Validation.MergeScenarioPermissiveFirst | tests/test_record_validate.rs:127-129 | With merge off, the same read supports the first substitution. |
| Validation.MergeScenarioPermissiveSecond | tests/test_record_validate.rs:127-130 | With merge off, the same read supports the second substitution. |
| Validation.MultipleSnpScenarioDelins | tests/test_record_validate.rs:135-151 | An invented read with TG inserted after the base before 144854047 supports the delins of TG at 144854047..144854048. |
| Validation.MultipleSnpScenarioSub | tests/test_record_validate.rs:135-152 | The same read, with G over C at 144854049, supports that substitution. |
| Validation.MultipleSnpMismatchesRefuted | tests/test_record_validate.rs:135-151 | A read that shows the delins as mismatches (TG over AC), followed by G over C, refutes the delins. |
| Links.Minor | src/link.rs:44-46 | The smaller of the two single-variant counts. |
| Links.Major | src/link.rs:49-51 | The larger of the two single-variant counts. |
| Links.InferLinkage | src/link.rs:90-124 | Each verdict implies its read-count bounds. Cis needs at least 3 reads with both variants and fewer than 3 with either one alone. Trans needs fewer than 3 with both and at least 3 for each alone. Sub and Super need at least 3 with both, fewer than 3 for one variant alone and at least 3 for the other. Cross needs at least 3 with both and at least 3 for each alone. |
| Links.InferLinkageIsTheRuleThatHolds | src/link.rs:90-124 | The result is Some(k) exactly when rule k holds, and None exactly when no rule holds. |
| Links.RulesExclusive | src/link.rs:90-124 | At most one of the five rules holds for any counts, so the order they are tried in does not matter. |
| Links.InferLinkageIgnoresNeither | src/link.rs:90-124 | Reads supporting neither variant never change the conclusion. |
| Links.InferLinkageSwap | src/link.rs:90-124 | Swapping the two variants swaps Super and Sub and leaves the other conclusions unchanged. |
| Links.NoReadsUndefined | src/link.rs:58-124 | With no informative reads, every ratio is NaN and the conclusion is undefined. |
| Links.InferLinkageExamples | src/link.rs:149-191 | The counts (101,1,0), (1,50,70), (28,50,0) and (58,1,50) are cis, trans, super and sub. |
| Links.ConclusionFaithful | src/link.rs:127-142 | Two conclusion texts are equal exactly when the inferred linkages are equal. |
| Links.RenderInjective | src/link.rs:127-142 | The printed object determines all four counts: different counts never print alike. |
| Driver.GetMergeRegion | src/main.rs:48-76 | Variants on different contigs fail with InconsistentContig. A contig unknown to the header fails with NoSuchContig. A contig both variants share and the header knows always gives a region: on the contig's reference id, from the smaller start to one past the larger end. |
| Driver.TallyRead | src/main.rs:89-111 | A read without both verdicts changes nothing. Otherwise exactly one counter goes up by one: both, first, second or neither. |
| Driver.TallyCounts | src/main.rs:89-111 | Each counter of the tally is the number of reads in its category. |
| Driver.TallyInformative | src/main.rs:89-111 | The four counters together count exactly the reads that have a verdict for both variants. |
| Driver.TallyAppend | src/main.rs:89-111 | Tallying one batch of reads after another adds their counts. |
| Driver.Count | src/main.rs:86-111 | A region failure is reported before any read is fetched, and the count succeeds exactly when the region does. Its result is then the tally of the verdict pairs of the reads fetched for the region: each counter is the number of those reads in its category, and the total never exceeds the number of reads. |
| Driver.MergeVerdictsMonotone | src/main.rs:91-100 | Over any reads, merge on gives no more reads supporting both variants than merge off, and the same number of reads with both verdicts. |
| Driver.CountMergeMonotone | src/main.rs:86-111 | A run succeeds with merge on exactly when it succeeds with merge off. Then merge on reports no more reads with both variants, and the same total. |
| Driver.Run | src/main.rs:78-111 | A first variant that does not parse stops the run with its parse error. So does a second one. A successful run parsed both variants. When both parse, the run is the count for the two parsed variants. |

## Left out

- Reading the alignment file, the index and its header is left out as I/O. Reads arrive through the `fetch` parameter of `Driver.Run` and the header is a map. A record that fails to decode (`rec?`) is not modelled.
- The command-line options, `println!` and `main`'s own `Display` for its `Link` (`src/main.rs:13-29`, a four-field object without a conclusion) are left out as I/O.
- Links.InferLinkage: ratios are compared exactly rather than after `f32` rounding. A count large enough for `f32` rounding to move a ratio across 0.96 or 0.01 can be judged differently.
- Links.InferLinkage: the sums `first + second` (`either`, `src/link.rs:40`), `both + either()` (`any`, `src/link.rs:55`) and `minor() + both` (`src/link.rs:76`) are `u32` in the source. Past 4294967295 they panic in a debug build and wrap in a release build, even when every counter fits. The model's counts are unbounded, so these sums never overflow.
- Variants.ParsePosition: does not model the panic of `parse::<u32>().unwrap()` on a number above 4294967295. Positions are unbounded.
- Driver.GetMergeRegion: does not model the `u32` overflow of `max(end) + 1` at end = 4294967295.
- Driver.TallyCounts: the `u32` counters are unbounded and cannot overflow.
- Validation.Validate: requires `PanicFree` even where the source returns before the subtraction that would underflow (an unmapped or non-overlapping read). The same precondition is inherited by `Driver.VerdictsOf`, `Driver.Count` and `Driver.Run`.
- The position of an entry is compared as `Option` ordering, with no position ordering below every position, as Rust's `Option` ordering has it. Entries are taken as given: how the alignment library derives them from CIGAR strings is not part of this model. In that library an insertion is exactly an entry with no reference position. The model does not require this: `Entry` lets kind and position vary independently, and every lemma holds for all combinations. The invented reads follow the library's rule.
- The tests call `Variant::from_hgvs`, which `src/variant.rs` does not define. It is not modelled, and the validation scenarios build their variants directly.
- The alignment files the validation tests read are not part of this model. The scenarios use invented reads consistent with the outcomes the tests assert.
- `test_validate_multiple_snp` expects one read to support both `1:144854047_144854048delinsTG` and `1:144854049C>G`. As `src/validate.rs:99-105` is written, a delins without a reference run expects no reference base (`refdef` is empty for everything but `del`). Also, `logical_merge` makes any non-identity entry next to a delins a conflict. So a read that shows the delins as mismatches over reference bases is refuted (`Validation.MultipleSnpMismatchesRefuted`, `Validation.DelinsMismatchRefutes`). The model reproduces the test's two outcomes only on a read that shows TG as an insertion after the base before the variant (`Validation.MultipleSnpScenarioDelins`, `Validation.MultipleSnpScenarioSub`). The fixture read is not part of this model, so whether the test passes on it is open.
- `src/lib.rs` only re-exports the modules and is not modelled.
- A read is skipped when it does not share a position with the variant. The source does not require the read to cover the whole variant, and the model follows the source.
