# typst-spellcheck in Dafny

This project models the text pipeline of `typst-spellcheck`, which checks Typst documents with a
LanguageTool server. The pipeline has these parts:

- The **tree segmenter** (`preprocess`) walks the Typst syntax tree and cuts it into paragraphs of
  text fragments. Depending on a node's kind it skips the subtree, substitutes a placeholder,
  enters code mode, breaks the paragraph or records the node's text.
- **Paragraph text materialisation** (`Paragraph::get_text`) concatenates the fragment texts and
  records each fragment's span, offset and length (its *contribution*).
- The **short-paragraph merger** (`merge_short`) joins each paragraph that follows a short one onto
  it, behind a synthetic `"\r\n\r\n"` separator.
- The **match reconciler** (`Problem::try_from_match`) maps a LanguageTool match back through the
  contributions to a 1-based line/column `Range` of the document.
- **Positions and ranges** come with their derived ordering and their display format. The
  derived ordering of `Problem` is modelled too.
- The **naive word counter** (`count_words_naive`).
- The sequential part of **`check_file`**: it builds the requests, processes the responses in
  completion order and stops at the first failure, drops ignored words, and computes the
  metadata counts.
- In the CLI: **configuration merging** (`Config::from_args_or_file`, with the parsed file as an
  input) and **port validation** (`port_in_range`).

Modelling choices:

- Text is `string`. Every character counts as one byte, so texts are taken to be ASCII.
- A span is `Detached` or `Attached(id)`. The merge separator is the only node the model creates
  with a detached span. Placeholders for raw blocks, equations and field accesses keep the
  replaced node's span, so they resolve like any other node.
- The document `Source` is three partial lookups, each returning `Option`:
  - the byte range of a span;
  - the line of a byte;
  - the column of a byte.
- The imperative routines are methods. Each is proved equal to a specification function:
  - `RecursivelyBuildParagraphs` against `Build`;
  - `GetText` against `TextOf`/`Contributions`;
  - `MergeShortParagraphs` against `Merged`;
  - `CountWordsNaive` against `Words`;
  - `ProcessResponses` against `Gathered`.
- The properties the program relies on are lemmas about those functions.
- The concurrent fan-out in `check_file` is replaced by two inputs:
  - a response for each paragraph;
  - a *completion order*, which is any permutation of the paragraph indices.

## Model

| member | source | states |
|---|---|---|
| Syntax.Placeholder | crates/typst-spellcheck/src/preprocessor/mod.rs:67-74 | The synthetic node is a `Text` node that carries the replaced node's span. Its text is the kind name wrapped in backticks. |
| Syntax.KindName | crates/typst-spellcheck/src/preprocessor/mod.rs:69 | The name of a substituted kind, which goes between the backticks. The strings themselves are fixed stand-ins. |
| Syntax.SpanRange | crates/typst-spellcheck/src/problem.rs:43 | A detached span (such as the merge separator's) never resolves to a document range. |
| Preprocessor.Classify | crates/typst-spellcheck/src/preprocessor/mod.rs:43-129 | Maps each kind to one of six treatments, code mode first. In code mode, only `Markup` resets code mode for the children. Outside code mode it gives: `Parbreak` seals; raw, equation and field access are substituted; the nine ignored kinds are skipped; the four code constructs enter code mode; `Space` is whitespace; anything else is recorded. |
| Preprocessor.Build | crates/typst-spellcheck/src/preprocessor/mod.rs:34-146 | Specifies `recursively_build_paragraphs` as a pair of the sealed paragraphs and the open one. Its properties are `NodeRules`, `BuildKeepsWellFormed` and `BuildEmitsInOrder`. |
| Preprocessor.BuildChildren | crates/typst-spellcheck/src/preprocessor/mod.rs:134-143 | Specifies the loop over children: each child continues the open paragraph with the same code mode, and its sealed paragraphs are appended. |
| Preprocessor.Segment | crates/typst-spellcheck/src/preprocessor/mod.rs:23-32 | Specifies `preprocess`: the walk from the root with an empty paragraph, keeping the last paragraph when it is non-empty. Its properties are `SegmentIsSealed` and `SegmentPreservesOrder`. |
| Preprocessor.RecursivelyBuildParagraphs | crates/typst-spellcheck/src/preprocessor/mod.rs:34-146 | The walk with mutable locals and the loop over children returns exactly the sealed paragraphs and open paragraph of the specification walk `Build`. |
| Preprocessor.Preprocess | crates/typst-spellcheck/src/preprocessor/mod.rs:23-32 | `preprocess` is the walk from the root with an empty paragraph, plus the last paragraph when it is non-empty (`Segment`). |
| Preprocessor.SegmentIsSealed | crates/typst-spellcheck/src/preprocessor/mod.rs:27-29 | Every paragraph returned meets all of these: it has at least one fragment; no fragment is a `Parbreak`; no fragment has empty text; it does not start with a `Space`. |
| Preprocessor.BuildKeepsWellFormed | crates/typst-spellcheck/src/preprocessor/mod.rs:58-63 | Walking any subtree from a well-formed open paragraph seals only non-empty, well-formed paragraphs and leaves a well-formed one open. |
| Preprocessor.BuildChildrenKeepsWellFormed | crates/typst-spellcheck/src/preprocessor/mod.rs:134-143 | The loop over the children keeps every sealed paragraph non-empty and well formed. |
| Preprocessor.AppendKeepsWellFormed | crates/typst-spellcheck/src/preprocessor/mod.rs:110-129 | Recording a text-bearing fragment that is not a paragraph break keeps a paragraph well formed, unless it would put a space first. |
| Preprocessor.NodeRules | crates/typst-spellcheck/src/preprocessor/mod.rs:58-129 | Outside code mode: an ignored kind leaves the state unchanged. A substituted kind adds exactly one placeholder to a non-empty paragraph and nothing to an empty one. A leading non-empty space is dropped with nothing sealed; one after text is recorded. A paragraph break seals a non-empty paragraph and opens a fresh one. Any other leaf is recorded exactly when its text is non-empty. |
| Preprocessor.BuildEmitsInOrder | crates/typst-spellcheck/src/preprocessor/mod.rs:34-146 | Everything a walk produces (sealed, then open) is the given open paragraph followed by the subtree's emitted fragments in pre-order. The open paragraph ends empty exactly when the stream says so. |
| Preprocessor.BuildChildrenEmitsInOrder | crates/typst-spellcheck/src/preprocessor/mod.rs:134-143 | The child loop produces what it was given followed by the children's streams, in child order. |
| Preprocessor.SegmentPreservesOrder | crates/typst-spellcheck/src/preprocessor/mod.rs:23-32 | Document order: the flattened paragraphs are exactly the recorded fragments and placeholders of the tree, in pre-order. |
| Preprocessor.NoTextNoParagraphs | crates/typst-spellcheck/src/preprocessor/mod.rs:23-32 | A tree that emits no fragment yields zero paragraphs. |
| Preprocessor.FlattenOfSealed | crates/typst-spellcheck/src/preprocessor/mod.rs:59-62 | A list of sealed paragraphs flattens to at least as many fragments as there are paragraphs. |
| Preprocessor.CodeModeRecordsNothing | crates/typst-spellcheck/src/preprocessor/mod.rs:47-54 | In code mode, a subtree with no `Markup` node records nothing, seals nothing and returns the open paragraph unchanged. |
| Preprocessor.CodeModeChildrenRecordNothing | crates/typst-spellcheck/src/preprocessor/mod.rs:134-143 | In code mode, children without `Markup` leave the loop's state unchanged. |
| Preprocessor.CodeConstructRecordsNothing | crates/typst-spellcheck/src/preprocessor/mod.rs:91-94 | Take a `FuncCall`, `ShowRule`, `SetRule` or `LetBinding` with no `Markup` inside. Outside code mode it leaves the state exactly as it found it. |
| Preprocessor.InertChildIsInvisible | crates/typst-spellcheck/src/preprocessor/mod.rs:134-143 | Code mode is passed by value. Removing a child whose walk changes nothing leaves the parent's walk unchanged, so later siblings are unaffected. |
| Preprocessor.ShiftedChildren | crates/typst-spellcheck/src/preprocessor/mod.rs:134-143 | Once the loop is past child `k`, removing child `k` just shifts the remaining iterations by one. |
| ParagraphText.GetText | crates/typst-spellcheck/src/preprocessor/paragraph.rs:18-39 | The loop returns the concatenation of the fragment texts and one contribution per fragment, as the specification functions define them. |
| ParagraphText.ContributionsArePrefixSums | crates/typst-spellcheck/src/preprocessor/paragraph.rs:22-36 | There is one contribution per fragment, carrying that fragment's span and text length. The first offset is 0. Each offset is the previous offset plus the previous length. The last contribution ends at the end of the text. |
| ParagraphText.ContributionsCoverFragments | crates/typst-spellcheck/src/preprocessor/paragraph.rs:24-27 | Each contribution's byte slice of the text is exactly its fragment's text. |
| ParagraphText.ContributionCoversFragment | crates/typst-spellcheck/src/preprocessor/paragraph.rs:24-27 | Contribution `i` lies inside the text and slices out fragment `i`'s text. |
| ParagraphText.TotalLengthIsTextLength | crates/typst-spellcheck/src/preprocessor/paragraph.rs:25-27 | The contribution lengths sum to the length of the text. |
| ParagraphText.TextOfAppend | crates/typst-spellcheck/src/preprocessor/paragraph.rs:22-27 | The text of concatenated fragment lists is the concatenation of their texts. |
| ParagraphText.TextOfPrefix | crates/typst-spellcheck/src/preprocessor/paragraph.rs:22-27 | The text of a prefix of the fragments is a prefix of the text. |
| ParagraphText.TextOfStep | crates/typst-spellcheck/src/preprocessor/paragraph.rs:24-27 | Fragment `i`'s text starts where the text of the fragments before it ends. |
| ParagraphText.FlattenAppend | crates/typst-spellcheck/src/preprocessor/merge_short.rs:16-17 | Flattening distributes over concatenation of paragraph lists. |
| MergeShort.Separator | crates/typst-spellcheck/src/preprocessor/merge_short.rs:15 | The synthetic `Space` leaf `"\r\n\r\n"`, which has a detached span. |
| MergeShort.Join | crates/typst-spellcheck/src/preprocessor/merge_short.rs:15-17 | Defines a merge: the separator pushed onto the latest paragraph, then all of the merged paragraph's nodes appended. `JoinLength` and `MergePreservesFragments` state its effect. |
| MergeShort.MergeStep | crates/typst-spellcheck/src/preprocessor/merge_short.rs:11-32 | One loop iteration. With the flag set, the paragraph is joined onto the last output behind the separator, and the flag clears once the result reaches `min_length`. Otherwise the paragraph is appended, and the flag is set when it is short. |
| MergeShort.Merged | crates/typst-spellcheck/src/preprocessor/merge_short.rs:7-35 | Specifies `merge_short` as the output of the fold. Its properties are `OnlyLastMayBeShort`, `MergePreservesFragments` and `LongParagraphsUnchanged`. |
| MergeShort.MergeFold | crates/typst-spellcheck/src/preprocessor/merge_short.rs:12-31 | After any prefix, the short flag is set exactly when the last output paragraph is shorter than `min_length`. The output is empty exactly when the input is. |
| MergeShort.MergeShortParagraphs | crates/typst-spellcheck/src/preprocessor/merge_short.rs:7-35 | The loop with its in-place update of the last paragraph returns `Merged`, the fold of the merge step. |
| MergeShort.LongParagraphsUnchanged | crates/typst-spellcheck/src/preprocessor/merge_short.rs:27-31 | If every paragraph reaches `min_length`, the output equals the input. |
| MergeShort.OnlyLastMayBeShort | crates/typst-spellcheck/src/preprocessor/merge_short.rs:12-31 | Every output paragraph except possibly the last has length at least `min_length`. |
| MergeShort.MergePreservesFragments | crates/typst-spellcheck/src/preprocessor/merge_short.rs:11-33 | Joining the output with separators gives exactly the input joined with separators. Nothing is lost, added or reordered, and each merge point became one separator. |
| MergeShort.JoinedMerge | crates/typst-spellcheck/src/preprocessor/merge_short.rs:15-18 | Merging into the last paragraph joins exactly like appending a new paragraph. |
| MergeShort.JoinedSnoc | crates/typst-spellcheck/src/preprocessor/merge_short.rs:27-31 | Appending a paragraph appends one separator and its fragments to the joined sequence. |
| MergeShort.JoinedMergeSingle | crates/typst-spellcheck/src/preprocessor/merge_short.rs:15-18 | Merging into a single paragraph appends one separator and the fragments. |
| MergeShort.JoinedMergeMore | crates/typst-spellcheck/src/preprocessor/merge_short.rs:15-18 | Merging into the last of several paragraphs appends one separator and the fragments. |
| MergeShort.JoinedLength | crates/typst-spellcheck/src/preprocessor/merge_short.rs:11-33 | Joining adds exactly one separator per paragraph boundary. |
| MergeShort.FragmentCount | crates/typst-spellcheck/src/preprocessor/merge_short.rs:11-33 | The output has no more paragraphs than the input. Output fragments equal input fragments plus one separator per merge. |
| MergeShort.OutputNoLonger | crates/typst-spellcheck/src/preprocessor/merge_short.rs:11-33 | The output never has more paragraphs than the input. |
| MergeShort.JoinLength | crates/typst-spellcheck/src/preprocessor/merge_short.rs:15-18 | A merge lengthens the previous paragraph by 4 plus the merged paragraph's length. |
| MergeShort.ShortPairMerged | crates/typst-spellcheck/src/preprocessor/merge_short.rs:7-34 | With `min_length` 10 and lengths 3, 4, 20, the output is two paragraphs: the first two joined (length 11), then the third. |
| MergeShort.MergeKeepsSealed | crates/typst-spellcheck/src/preprocessor/merge_short.rs:15-17 | Merging non-empty, well-formed paragraphs keeps them non-empty and well formed. |
| Problems.FindContribution | crates/typst-spellcheck/src/problem.rs:33-37 | Returns the first contribution with non-zero length that holds the match start. Returns `None` exactly when there is none. |
| Problems.MatchRange | crates/typst-spellcheck/src/problem.rs:30-61 | The placing half of `try_from_match`. A placed range has all line and column numbers at least 1. With no covering contribution there is no range. |
| Problems.PositionAt | crates/typst-spellcheck/src/problem.rs:47-55 | Defines a document byte's position as its line and column lookups, each plus one, and `None` when either lookup fails. `MatchMapsIntoFragment` states what placing a match yields through it. |
| Problems.TryFromMatch | crates/typst-spellcheck/src/problem.rs:24-80 | The result is `Some` exactly when `MatchRange` places the match, and then carries that range. A result copies the match string, messages, rule and category ids and replacement values in order. Its context is the match context without `'\r'`. Its line and column numbers are all at least 1. With no covering contribution the result is `None`. |
| Problems.MatchMapsIntoFragment | crates/typst-spellcheck/src/problem.rs:33-56 | The inversion of `get_text`. Take a match `k` bytes into fragment `i`. It starts `k` bytes after that node's document start and ends `length` bytes later, with both positions 1-based. It is `None` exactly when the span or one of the four lookups fails. |
| Problems.PlacedThroughContribution | crates/typst-spellcheck/src/problem.rs:39-56 | Once the covering contribution is known, the match is placed `k` bytes past the start of that contribution's node, or is `None` when the span or a position lookup fails. |
| Problems.FirstCoveringIsFragment | crates/typst-spellcheck/src/problem.rs:33-37 | In a paragraph of text-bearing fragments, the found contribution is the fragment that holds the offset. |
| Problems.OffsetsIncrease | crates/typst-spellcheck/src/preprocessor/paragraph.rs:24-27 | Contributions never overlap: a contribution ends no later than any later one starts. |
| Problems.DetachedSpanGivesNone | crates/typst-spellcheck/src/problem.rs:43 | A match whose covering contribution has a detached span yields no problem. In the model only the merge separator has one; placeholders keep their node's span. |
| Problems.RemoveCarriageReturns | crates/typst-spellcheck/src/problem.rs:63-68 | The result has no `'\r'`, is no longer than the input, and keeps every other character with its multiplicity. |
| Problems.RemoveCarriageReturnsConcat | crates/typst-spellcheck/src/problem.rs:63-68 | The filter distributes over concatenation, so order is kept. |
| Problems.RemoveCarriageReturnsKeepsClean | crates/typst-spellcheck/src/problem.rs:63-68 | Text without `'\r'` is unchanged, so the filter is idempotent. |
| Problems.Values | crates/typst-spellcheck/src/problem.rs:76 | The replacement values are taken one per replacement, in order. |
| Problems.FieldOrders | crates/typst-spellcheck/src/problem.rs:10-21 | The derived comparison compares eight fields in declaration order. |
| Problems.FieldsConsistent | crates/typst-spellcheck/src/problem.rs:10-21 | Every field comparison is a consistent (transitive) order. |
| Problems.FieldsReverse | crates/typst-spellcheck/src/problem.rs:10-21 | Every field comparison is antisymmetric. |
| Problems.FieldsEqual | crates/typst-spellcheck/src/problem.rs:10-21 | All fields compare equal exactly when the problems are equal. |
| Problems.StringField | crates/typst-spellcheck/src/problem.rs:14-17 | String fields compare by a consistent total order that agrees with equality. |
| Problems.StringsField | crates/typst-spellcheck/src/problem.rs:18 | The replacement lists compare by a consistent total order that agrees with equality. |
| Problems.RangeField | crates/typst-spellcheck/src/problem.rs:13 | The range field compares by a consistent total order that agrees with equality. |
| Problems.CompareProblem | crates/typst-spellcheck/src/problem.rs:10-21 | The derived `Ord` of `Problem` compares field by field in declaration order. It is total by `ProblemOrderIsTotal`. |
| Problems.ProblemCompareEqual | crates/typst-spellcheck/src/problem.rs:10 | Problems compare equal exactly when they are equal. |
| Problems.ProblemCompareReverse | crates/typst-spellcheck/src/problem.rs:10 | Swapping the operands reverses the comparison. |
| Problems.ProblemCompareTransitive | crates/typst-spellcheck/src/problem.rs:10 | The comparison of problems is transitive. |
| Problems.ProblemOrderIsTotal | crates/typst-spellcheck/src/problem.rs:10-21 | The derived ordering of problems is total and agrees with equality. A problem with an earlier range sorts first. |
| Ordering.LexTransitive | crates/typst-spellcheck/src/problem.rs:10 | A struct comparison built from consistent field comparisons is transitive. |
| Ordering.LexEqual | crates/typst-spellcheck/src/problem.rs:10 | A struct comparison is `Equal` exactly when every field comparison is. |
| Ordering.LexReverse | crates/typst-spellcheck/src/problem.rs:10 | Reversing every field comparison reverses the struct comparison. |
| Ordering.TotalOrderIsConsistent | crates/typst-spellcheck/src/range.rs:3 | A total order gives consistent comparisons on any three values. |
| Ordering.CompareSeqEqual | crates/typst-spellcheck/src/problem.rs:14 | Lexicographic comparison of sequences is `Equal` exactly on equal sequences. |
| Ordering.CompareSeqReverse | crates/typst-spellcheck/src/problem.rs:14 | Lexicographic comparison is antisymmetric. |
| Ordering.CompareSeqTransitive | crates/typst-spellcheck/src/problem.rs:14 | Lexicographic comparison is transitive. |
| Ordering.CompareSeqIsTotalOrder | crates/typst-spellcheck/src/problem.rs:14-18 | Lexicographic comparison over a total order is a total order. |
| Ordering.CompareNatIsTotalOrder | crates/typst-spellcheck/src/range.rs:10 | Comparison of numbers is a total order. |
| Ordering.CompareCharIsTotalOrder | crates/typst-spellcheck/src/problem.rs:14 | Comparison of characters is a total order. |
| Ordering.CompareStringIsTotalOrder | crates/typst-spellcheck/src/problem.rs:14-17 | String comparison is a total order. |
| Ordering.CompareStringsIsTotalOrder | crates/typst-spellcheck/src/problem.rs:18 | Comparison of string lists is a total order. |
| Ranges.ComparePosition | crates/typst-spellcheck/src/range.rs:10-15 | The derived `Ord` of `Position` compares by line, then by column. |
| Ranges.CompareRange | crates/typst-spellcheck/src/range.rs:3-8 | The derived `Ord` of `Range` compares by start, then by end. |
| Ranges.PositionOrderIsTotal | crates/typst-spellcheck/src/range.rs:10-15 | Positions are totally ordered, by line and then by column. |
| Ranges.RangeOrderIsTotal | crates/typst-spellcheck/src/range.rs:3-8 | Ranges are totally ordered, by start and then by end. |
| Ranges.Format | crates/typst-spellcheck/src/range.rs:17-33 | The rendering starts with `line` and has a space after it exactly when both ends are on one line (the singular form); otherwise it reads `lines`. Where each number goes is `FormatReadsBack`. |
| Ranges.FormatReadsBack | crates/typst-spellcheck/src/range.rs:19-30 | A one-line range reads `line L, column C1-C2`, and any other reads `lines L1-L2, column C1-C2`. Each placeholder is a run of decimal digits, and parsing it gives back that line or column. |
| Ranges.FormatInjective | crates/typst-spellcheck/src/range.rs:17-33 | Distinct ranges never render alike: the text determines all four numbers. |
| Ranges.ColumnsPartInjective | crates/typst-spellcheck/src/range.rs:19-31 | The column part determines both columns. |
| Decimal.NatToString | crates/typst-spellcheck/src/range.rs:19-31 | A number renders as a non-empty string of decimal digits with no leading zero. |
| Decimal.DigitsValueOfNatToString | crates/typst-spellcheck-cli/src/args.rs:63-65 | Parsing the decimal rendering of a number gives the number back. |
| Decimal.NatToStringInjective | crates/typst-spellcheck/src/range.rs:19-31 | Distinct numbers render differently. |
| WordCount.Words | crates/typst-spellcheck/src/word_count.rs:1-3 | Defines the number of words as the number of non-whitespace characters that start the text or follow whitespace. The scanner is proved to compute it. |
| WordCount.IsWhitespace | crates/typst-spellcheck/src/word_count.rs:9 | Defines `char::is_whitespace` as the characters with the Unicode `White_Space` property: tab through carriage return, space, U+0085, U+00A0, U+1680, U+2000 through U+200A, U+2028, U+2029, U+202F, U+205F and U+3000. |
| WordCount.CountWordsNaive | crates/typst-spellcheck/src/word_count.rs:4-25 | The two-state scanner returns the number of word starts, which is the number of maximal runs of non-whitespace. |
| WordCount.NoWordsIffWhitespace | crates/typst-spellcheck/src/word_count.rs:5-24 | The count is 0 exactly when the text is empty or all whitespace. |
| WordCount.WordsConcat | crates/typst-spellcheck/src/word_count.rs:8-24 | Texts that meet at whitespace count separately. |
| WordCount.JoinedBySpace | crates/typst-spellcheck/src/word_count.rs:8-24 | `count(a + " " + b) == count(a) + count(b)`. |
| WordCount.WhitespaceRunsCollapse | crates/typst-spellcheck/src/word_count.rs:9-15 | Leading, trailing and repeated whitespace does not change the count. |
| WordCount.LastWordCounted | crates/typst-spellcheck/src/word_count.rs:20-22 | A text with a non-whitespace character has at least one word, even without trailing whitespace. |
| WordCount.OneWord | crates/typst-spellcheck/src/word_count.rs:20-22 | A non-empty text without whitespace is one word. |
| WordCount.ThreeWords | crates/typst-spellcheck/src/word_count.rs:9-22 | `"one  two\tthree\n"` has three words. |
| WordCount.JoinedWordsAreSum | crates/typst-spellcheck/src/spellchecker/check_file.rs:111-117 | The word count of the space-joined paragraph texts is the sum of the texts' word counts. |
| WordCount.JoinWithSpaces | crates/typst-spellcheck/src/spellchecker/check_file.rs:111-115 | Defines `join(" ")`: the texts in order with one space between neighbours, and the empty string for no texts. `JoinedWordsAreSum` states its word count. |
| CheckFile.BuildRequest | crates/typst-spellcheck/src/spellchecker/check_file.rs:53-66 | The request carries the paragraph text and the language. Its level is picky exactly when `picky == Some(true)`. Disabled rules and categories are copied unchanged. |
| CheckFile.ParagraphProblems | crates/typst-spellcheck/src/spellchecker/check_file.rs:84-107 | A paragraph's matches give at most one problem each. No problem's match string is an ignored word. Each match string is a slice of the paragraph text. The exact correspondence is `ProblemsOfKeptMatches`. |
| CheckFile.MatchText | crates/typst-spellcheck/src/spellchecker/check_file.rs:85 | The match text is the slice `text[offset..offset + length]` of the paragraph text. The slice must lie inside the text. |
| CheckFile.IsIgnored | crates/typst-spellcheck/src/spellchecker/check_file.rs:88-92 | A match text is ignored when there is an ignore list and the text is in it, compared case-sensitively. Nothing is ignored without a list. |
| CheckFile.Keeps | crates/typst-spellcheck/src/spellchecker/check_file.rs:85-106 | A match is kept when its text is not ignored and `try_from_match` places it. |
| CheckFile.KeptIndices | crates/typst-spellcheck/src/spellchecker/check_file.rs:84-107 | Gives the strictly increasing indices of exactly the kept matches. |
| CheckFile.ProblemsOfKeptMatches | crates/typst-spellcheck/src/spellchecker/check_file.rs:84-107 | There is one problem per kept match, in match order. Problem `i` is the placed form of the `i`-th kept match, and its match string is that match's own slice of the paragraph text. Every kept match gives its problem, and no dropped match gives one. |
| CheckFile.KeptCount | crates/typst-spellcheck/src/spellchecker/check_file.rs:84-107 | A paragraph gives exactly as many problems as it has kept matches. |
| CheckFile.ProblemOfKeptMatch | crates/typst-spellcheck/src/spellchecker/check_file.rs:84-107 | Problem `i` is the placed form of the `i`-th kept match and carries that match's own text. |
| CheckFile.AllKept | crates/typst-spellcheck/src/spellchecker/check_file.rs:84-107 | When every match is kept, the kept indices are `0, 1, …, n - 1`. |
| CheckFile.NothingFilteredWithoutIgnoreList | crates/typst-spellcheck/src/spellchecker/check_file.rs:88-102 | Take no ignore list and every match placeable. Then there is exactly one problem per match, in order, each with its own match's text. |
| CheckFile.ProcessMatches | crates/typst-spellcheck/src/spellchecker/check_file.rs:84-107 | The loop over one response's matches slices each match, skips ignored words and unplaceable matches, and returns `ParagraphProblems`. |
| CheckFile.ProcessMatch | crates/typst-spellcheck/src/spellchecker/check_file.rs:85-106 | The loop body for one match gives the match's placed problem when the match is kept, and nothing otherwise. |
| CheckFile.Gathered | crates/typst-spellcheck/src/spellchecker/check_file.rs:77-108 | Specifies the response loop: paragraph problems are appended in completion order, and the first failed response ends the loop with its error. Its properties are `GatheredFails`, `GatheredIsConcat` and `OrderIndependent`. |
| CheckFile.ProcessResponses | crates/typst-spellcheck/src/spellchecker/check_file.rs:77-108 | The loop over completed responses returns `Gathered`: the problems in completion order, or the first failure. |
| CheckFile.FailureIsFinal | crates/typst-spellcheck/src/spellchecker/check_file.rs:77-78 | Once a response has failed, later responses change nothing: the result stays that error. |
| CheckFile.GatheredFails | crates/typst-spellcheck/src/spellchecker/check_file.rs:77-78 | The loop fails exactly when some response in the order failed, and then with the error of the first failure to complete. |
| CheckFile.GatheredIsConcat | crates/typst-spellcheck/src/spellchecker/check_file.rs:77-108 | On success the problems are each paragraph's problems, concatenated in completion order. |
| CheckFile.PerParagraph | crates/typst-spellcheck/src/spellchecker/check_file.rs:84-107 | There is one problem list per paragraph. |
| CheckFile.ConcatOverAppend | crates/typst-spellcheck/src/spellchecker/check_file.rs:77-108 | Concatenating over two orders in sequence concatenates the two results. |
| CheckFile.ConcatOverSplit | crates/typst-spellcheck/src/spellchecker/check_file.rs:77-108 | One paragraph can be taken out of the middle of an order. |
| CheckFile.ConcatOverPermutation | crates/typst-spellcheck/src/spellchecker/check_file.rs:77-108 | Permuting the order permutes the concatenated problems and changes nothing else (equal multisets). |
| CheckFile.CompletionOrderIndexes | crates/typst-spellcheck/src/spellchecker/check_file.rs:49-77 | A completion order contains every paragraph index. |
| CheckFile.CompletionFails | crates/typst-spellcheck/src/spellchecker/check_file.rs:77-78 | Over a completion order, the loop fails exactly when some paragraph's response failed. |
| CheckFile.OrderIndependent | crates/typst-spellcheck/src/spellchecker/check_file.rs:77-108 | Completion order does not matter. Every order fails or succeeds alike, and successes yield the same problems as a multiset. |
| CheckFile.ProblemsBounded | crates/typst-spellcheck/src/spellchecker/check_file.rs:84-107 | On success there are no more problems than matches, and no problem's match string is an ignored word. |
| CheckFile.Items | crates/typst-spellcheck/src/spellchecker/check_file.rs:52 | There is one text-and-contributions pair per paragraph. |
| CheckFile.Texts | crates/typst-spellcheck/src/spellchecker/check_file.rs:111-115 | There is one text per paragraph. |
| CheckFile.CheckedParagraphs | crates/typst-spellcheck/src/spellchecker/check_file.rs:42-43 | Defines the checked paragraphs as `merge_short(preprocess(root), 512)`, the segmenter's output merged with minimum length 512. `CheckFile` states that it sends one request per such paragraph. |
| CheckFile.CheckFile | crates/typst-spellcheck/src/spellchecker/check_file.rs:42-129 | The checked paragraphs are `merge_short(preprocess(root), 512)`, with one request each. The call fails exactly when some response failed. It then returns the error that `Gathered` returns, which is the error of the first failure in completion order (`GatheredFails`). Otherwise it returns the gathered problems; the paragraph count is the number of merged paragraphs; the word count is the sum of the paragraph texts' word counts. |
| ConfigFile.FromArgsOrFile | crates/typst-spellcheck-cli/src/config_file.rs:34-85 | With no file, a missing host, port or language fails with `RequiredOptions`, and only then. Otherwise host, port and language are the argument or else the file value, where the file side defaults without a file. Categories, picky and ignore words are argument-or-file. Disabled rules get `"WHITESPACE_RULE"` appended exactly when `no_default_disabled_rules == Some(false)`. |
| ConfigFile.DefaultConfig | crates/typst-spellcheck-cli/src/config_file.rs:9-15 | Defines the derived `Default` for the file side, used when there is no file: the default LanguageTool settings and the default spellchecker settings. |
| Settings.DefaultLanguageToolConfig | crates/typst-spellcheck/src/lib.rs:8-17 | Defines the derived `Default`: empty host and language, port 0, and no disabled rules, no disabled categories and no picky flag. |
| Settings.DefaultSpellcheckConfig | crates/typst-spellcheck/src/lib.rs:20-25 | Defines the derived `Default`: no ignore list. |
| PortArgs.ParseUsize | crates/typst-spellcheck-cli/src/args.rs:63-65 | A parsed value always fits in a 64-bit `usize`. |
| PortArgs.NotAPortNumber | crates/typst-spellcheck-cli/src/args.rs:65 | The parse error message is the input in backticks followed by "isn't a port number". |
| PortArgs.NotInRange | crates/typst-spellcheck-cli/src/args.rs:69-73 | The range error message names both ends of the range; `ZeroRejected` shows that it reads `port not in range 1-65535`. |
| PortArgs.PortInRange | crates/typst-spellcheck-cli/src/args.rs:61-75 | The input is accepted exactly when it parses to a value in 1..=65535, and the value is returned unchanged. Otherwise it fails with the parse error or the range error, according to which step failed. |
| PortArgs.ParseRendering | crates/typst-spellcheck-cli/src/args.rs:63-65 | The decimal rendering of any `usize`, with or without `+`, parses back to it. |
| PortArgs.PortRoundTrip | crates/typst-spellcheck-cli/src/args.rs:61-67 | Every port 1..=65535 written in decimal is accepted as itself. |
| PortArgs.ZeroRejected | crates/typst-spellcheck-cli/src/args.rs:66-73 | `"0"` is rejected with `port not in range 1-65535`. |
| PortArgs.LargeRejected | crates/typst-spellcheck-cli/src/args.rs:63-73 | Numbers above 65535 that fit in a `usize` get the range error, not the parse error. |
| PortArgs.NonNumericRejected | crates/typst-spellcheck-cli/src/args.rs:63-65 | Input with a non-digit (other than a leading `+`) gets the "isn't a port number" error. |
| PortArgs.EmptyRejected | crates/typst-spellcheck-cli/src/args.rs:63-65 | The empty string is not a port number. |

## Left out

- Concurrency and timing in `check_file` are not modelled: `FuturesUnordered`, the shared client and `Instant`. The responses and their completion order are inputs, and `languagetool_request_time` is not part of `Metadata`.
- The LanguageTool client is not modelled (`ServerClient`, the HTTP request, response decoding and `Spellchecker::new`). A `Match` is a plain record, and a failed request is an opaque `ServiceError`.
- Typst parsing is not modelled. The tree is an input value, and `Source` is three abstract partial lookups. `SyntaxKind::name()` is given fixed names for the three substituted kinds, since only their backtick shape matters.
- Debug-file output and logging are side effects and are not modelled. This covers the debug module, the logger and the warning for an unplaceable match.
- The coloured terminal output of the CLI is presentation only. Only `Range`'s display format is modelled.
- The CLI `main`, the clap argument parser and the config file's location, reading and TOML decoding are I/O and are not modelled. The parsed file is an input to `FromArgsOrFile`. The final sort of the problems is covered by the total order `CompareProblem`.
- `main` calls `check_file` with two arguments, while the function takes three (`debug` included). The model follows `check_file`. The `debug` flag only switches the debug output.
- `Args` has no `no_default_disabled_rules` field, but `from_args_or_file` reads one. The model adds it to `Args` as an `Option<bool>`.
- Borrowed and owned (`Cow`) fragments are not distinguished. A fragment is kind, text and span.
- Text is taken to be ASCII, so byte offsets are character indices. UTF-8 character boundaries and the panic on a non-boundary slice are not modelled. `CheckFile.CheckFile` and `CheckFile.ProcessResponses` instead require every match to lie within its paragraph's text.
- Counts and offsets are unbounded naturals. `usize` overflow is not modelled; only the port parse bounds its value by the 64-bit `usize` maximum.
- The commented-out heading rule and markup-seal block in the segmenter are not modelled.
- `CheckFile.CheckFile`: the problem list is not sorted here; the CLI sorts it after the call.
