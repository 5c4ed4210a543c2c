# Verified model of the authoring producer

The producer reads JavaScript and TypeScript source for authored messages. It decodes string and template
literals while keeping a map back to source bytes, attaches `@intlify` annotations to the declarations they
describe, follows `const` aliases to `mf2` declarations, and merges what independent units establish into one
inventory. The command-line tool reads its own configuration as JSONC. This project models those parts in Dafny
and proves what they promise.

Code that works by changing things step by step is modelled that way: the decoder and its open run, the walk with
its two stacks, the recognizer's tables, the bounded collectors, the comma pass over an array of characters. Each
such method is proved against a specification function, and what that function means is then proved separately, in
terms that do not mention the code: the grammar of ECMA-262, paths through a tree, chains of aliases, the tokens of
JSONC, permutations of the input.

| file | what it holds |
|---|---|
| `Wrappers`, `Utf8`, `Sorting`, `Orders`, `Pieces` | results, UTF-8, what is relied on of Rust's library sorts and searches, `Ordering` and `then_with`, lists cut into one piece for each element they are made of |
| `Literal`, `LiteralMap`, `Cooker` | the decoder: what it accepts, its map, and the code itself |
| `InputMap`, `EcmaLiteral`, `Refusals`, `EscapeRoundTrip`, `Written` | what the map means, agreement with sections 11.1.3, 12.9.4 and 12.9.6 of ECMA-262, what each failure means, the round trip, and the same said once more in plain numbers |
| `SpanTree`, `Placement`, `GapOrder`, `Ownership`, `WalkMeaning` | the annotation walk, and its meaning on trees |
| `Reports`, `Annotations`, `AnnotationMeaning`, `AnnotationReports` | attaching annotations, what each declaration carries in the end, and everything that is reported |
| `Aliases`, `Recognizer`, `Merging` | alias resolution, the recognizer's tables, overlap, joining the two recognizers |
| `Jsonc`, `JsoncBytes`, `JsoncTokens`, `Normalizer` | the two normalizing passes, on scalars, on bytes and on tokens |
| `Reporting`, `ReportingKey`, `Collecting`, `Resolution`, `Handover` | the reporting order, bounded collectors, resolving declarations, settling uses |
| `Admission`, `Verdicts`, `Assembly`, `Sealing`, `Bindings` | admitting units, assembling an inventory, what each failure of either means, the intrinsic binding set |

Where the code does something other than a first reading suggests, the code is followed and the difference proved:

- Normalizing JSONC is not idempotent: `[1,,]` loses one comma each time (`JsoncBytes.NotIdempotent`). It is exactly
  when no comma outside strings is followed by a trailing comma (`JsoncBytes.IdempotentExactly`).
- The running byte total of admission saturates, so an invocation bounded by the largest 64-bit quantity never
  exceeds its bound. Every smaller bound is exact (`Admission.AdmitsExactly`).
- A binding set with an empty module and, elsewhere, an empty export is refused with whichever comes first
  (`Bindings.MixedDiffers`). Every other set comes to the same result in any order (`Bindings.OrderIndependent`).
- Which failure resolving declarations gives can depend on the order they are supplied in (`Resolution.OrderDecides`).
  It never does exactly when all failing inputs fail with one error and, if any fails, the records of the others fit
  the budget (`Resolution.FailsAlikeExactly`).
- Two records that compare equal in the reporting order may still differ in the byte lengths their snapshots
  declare, and in nothing else (`Reporting.ReportingEqualExactly`).

What the model takes from the host: offsets are byte offsets into UTF-8; the syntax tree is any tree of spans in which
children lie inside their parent and siblings, visited in any order, do not overlap unless one of them has no
children; only the items of a statement list are in source order. Declarations claim distinct nonempty spans, which
the overlap check before annotations are read ensures, and no node without children that has a declared span overlaps
a sibling that has some, a declaration being a whole call or tag. A `const` symbol is neither an import nor an
intrinsic. Digests, the reading of an annotation's JSON, the resolution of one declaration, and building and sealing
an inventory are given functions.

## Model

| member | source | states |
|---|---|---|
| Cooker.Decode | crates/intlify_authoring_js/src/cooked.rs:191-233 | The loop over bytes, for every content, kind and segment limit, gives what reading the content piece by piece as scalars gives: the same text and map, or the same refusal at the same range |
| Cooker.EscapeAt | crates/intlify_authoring_js/src/cooked.rs:236-307 | One escape appends exactly the replacement the content calls for and moves past it, or fails as the content calls for |
| Cooker.Unicode | crates/intlify_authoring_js/src/cooked.rs:310-379 | The same for `\u`, in braces, four digits, or a surrogate pair |
| Cooker.HexEscape | crates/intlify_authoring_js/src/cooked.rs:236-307 | The same for `\x` and two hexadecimal digits |
| Cooker.HighSurrogate | crates/intlify_authoring_js/src/cooked.rs:310-379 | A high surrogate is read only together with an adjacent low one, as the one scalar they encode |
| Cooker.Digits | crates/intlify_authoring_js/src/cooked.rs:310-379 | The digit loop stops at the first character that is not hexadecimal, with the unbounded value of the digits cut off just above the largest scalar |
| Cooker.SaturatedStep | crates/intlify_authoring_js/src/cooked.rs:310-379 | Saturating at every digit gives the same verdict as comparing the unbounded value once, so leading zeros and overlong digits never matter |
| Cooker.LegacyEnd | crates/intlify_authoring_js/src/cooked.rs:400-412 | The end of a legacy octal escape is found byte by byte |
| Refusals.LegacyLengthDerives | crates/intlify_authoring_js/src/cooked.rs:400-412 | That end is the one the Annex B grammar derives, digit lookahead included, and no other |
| Cooker.Invalid | crates/intlify_authoring_js/src/cooked.rs:386-394 | A malformed escape is a disagreement with the parser in a string, and a refusal naming its range in a template |
| Cooker.PositionIsBoundary | crates/intlify_authoring_js/src/cooked.rs:191-233 | Searching bytes for the next special one always stops on a scalar boundary |
| Cooker.Output.Verbatim | crates/intlify_authoring_js/src/cooked.rs:452-460 | Text read as it stands extends the open run, and the text, map and run go on spelling out what was read |
| Cooker.Output.Replaced | crates/intlify_authoring_js/src/cooked.rs:463-476 | A replacement closes the run and adds its own segment, failing exactly when the map would then be over its limit |
| Cooker.Output.Close | crates/intlify_authoring_js/src/cooked.rs:478-484 | Closing a run, late as it is, fails exactly when the segments of what was read do not fit |
| Cooker.Output.Segment | crates/intlify_authoring_js/src/cooked.rs:486-501 | A segment is added within the limit and with both ranges in order, and nothing else changes |
| Cooker.Output.Finish | crates/intlify_authoring_js/src/cooked.rs:503-514 | The result holds the text and the map of everything read, an empty literal's map being one empty segment |
| InputMap.MapTiles | crates/intlify_authoring_js/src/cooked.rs:29-34 | The segments tile the decoded text and the source range exactly, in order, without gap or overlap |
| InputMap.SegmentReads | crates/intlify_authoring_js/src/cooked.rs:29-34 | A segment of equal lengths is byte for byte positional, a template's lone carriage return read as a newline apart; any other is one escape, line continuation or CRLF, longer in source, that decodes on its own to its piece |
| InputMap.RunsAreMaximal | crates/intlify_authoring_js/src/cooked.rs:29-34 | No positional segment follows another |
| InputMap.ReplacementStandsAlone | crates/intlify_authoring_js/src/cooked.rs:236-379 | What an escape decodes to does not depend on what comes after it |
| InputMap.TextNoLonger | crates/intlify_authoring_js/src/cooked.rs:442-515 | Decoded text is never longer than its source |
| InputMap.SegmentLimitExact | crates/intlify_authoring_js/src/cooked.rs:463-514 | Under limit n decoding succeeds exactly when unlimited decoding does with at most n segments, and then text and map are the same; every other failure is the unlimited one |
| Refusals.RefusedExactly | crates/intlify_authoring_js/src/cooked.rs:250-379 | Decoding is refused for a form at a range exactly when everything before is well-paired productions, and there stands: a surrogate half without its adjacent partner or a braced surrogate; in a string, a legacy escape of Annex B; in a template, a NotEscapeSequence of section 12.9.6; and the range is that escape and no more |
| Refusals.DisagreesExactly | crates/intlify_authoring_js/src/cooked.rs:386-394 | Decoding disagrees with the parser exactly when, everything before being read, no production stands there and none of the refused forms does |
| Refusals.RefusalPlaced | crates/intlify_authoring_js/src/cooked.rs:250-306 | Under any limit a refusal points from a backslash over exactly the refused escape, and a template's invalid or a string's legacy escape is where no production of the language stands |
| Refusals.NextExactly | crates/intlify_authoring_js/src/cooked.rs:236-379 | At any one place the decoder reads on exactly when a production stands there that is no unpaired surrogate, refuses a form exactly when that form stands there, and disagrees exactly when nothing does |
| Refusals.NotEscapeExactly | crates/intlify_authoring_js/src/cooked.rs:236-394 | A template refuses an escape exactly where the grammar has a NotEscapeSequence, of the same length, so it has no cooked value |
| Refusals.LegacyExactly | crates/intlify_authoring_js/src/cooked.rs:250-306 | A string refuses an escape as legacy exactly where Annex B derives one, of the same length |
| Refusals.RefusedEscape | crates/intlify_authoring_js/src/cooked.rs:236-412 | The form and length of a refused escape are those of the escape at the head of the content |
| EcmaLiteral.AcceptsExactly | crates/intlify_authoring_js/src/cooked.rs:191-379 | A content is accepted exactly when ECMA-262 derives it, legacy forms excluded, with every surrogate half in a pair |
| EcmaLiteral.DerivationDecodes | crates/intlify_authoring_js/src/cooked.rs:191-379 | Any such derivation decodes to code units equal to its SV or TV |
| EcmaLiteral.DecodedDerives | crates/intlify_authoring_js/src/cooked.rs:191-379 | Whatever is accepted has such a derivation |
| EcmaLiteral.Unambiguous | crates/intlify_authoring_js/src/cooked.rs:191-379 | A content has at most one derivation |
| EcmaLiteral.DecodesToValue | crates/intlify_authoring_js/src/cooked.rs:191-379 | A derivable content decodes exactly when its surrogates pair, and then to the one scalar text whose code units are the literal's value |
| EcmaLiteral.Utf16Injective | crates/intlify_authoring_js/src/cooked.rs:310-379 | Code units determine the scalar text they encode |
| EscapeRoundTrip.RoundTrip | crates/intlify_authoring_js/src/cooked.rs:310-379 | Any text, each scalar spelled in braces with any leading zeros, as four digits or as a surrogate pair, decodes back to itself |
| EscapeRoundTrip.BracedSpelling | crates/intlify_authoring_js/src/cooked.rs:414-425 | Every scalar has a braced spelling of every width from six digits |
| EscapeRoundTrip.FourDigitSpelling | crates/intlify_authoring_js/src/cooked.rs:414-425 | Every scalar of the basic plane has a four-digit spelling |
| EscapeRoundTrip.PairSpelling | crates/intlify_authoring_js/src/cooked.rs:310-379 | Every other scalar is spelled by its surrogate pair |
| Utf8.EncodedBits | crates/intlify_authoring_js/src/cooked.rs:236-379 | A scalar is pushed as the bytes of section 3 of RFC 3629, whose payload bits spell it |
| Written.NumeralsValue | crates/intlify_authoring_js/src/cooked.rs:414-425 | Digits written as 0x30, 0x41 or 0x61 and up, in any mix of letter case, are read as the number they stand for |
| Written.WrittenExactly | crates/intlify_authoring_js/src/cooked.rs:191-425 | A literal decodes to a text exactly when it can be written, character by character in numbers, with the forms that stand for it: itself, the six letters, a null, a line continuation, two digits, four digits, digits in braces, or two halves |
| Placement.Placer.Visit | crates/intlify_authoring_js/src/metadata.rs:418-491 | Walking any subtree leaves both stacks as they were, adds the gaps of that subtree and enters each of its nodes with its owner |
| Placement.Placer.EnterNode | crates/intlify_authoring_js/src/metadata.rs:397-416 | Entering a node records the statement on top of the stack as the owner of a declaration or use with that span |
| Placement.Placer.VisitStatements | crates/intlify_authoring_js/src/metadata.rs:454-475 | A statement list takes back its own opening and makes one gap before each directive and member |
| WalkMeaning.GapsArePlaces | crates/intlify_authoring_js/src/metadata.rs:454-475 | The gaps are exactly the places before the items of the tree's statement lists, wherever those are |
| WalkMeaning.PrecedesMeans | crates/intlify_authoring_js/src/metadata.rs:254-272 | A comment precedes a statement exactly when, in some list, it lies after the item before it and ends before it starts |
| WalkMeaning.EntriesArePaths | crates/intlify_authoring_js/src/metadata.rs:397-416 | What is entered is exactly the nodes of the tree, each with the owner carried down its path |
| WalkMeaning.UsesMean | crates/intlify_authoring_js/src/metadata.rs:397-416 | A statement counts as using a shared declaration exactly when it owns some node with the span of such a use |
| Ownership.OwnerAlongMeans | crates/intlify_authoring_js/src/metadata.rs:386-416 | The owner carried down a path is the innermost list member on it with no function, class or namespace in between |
| Ownership.LastIsInnermost | crates/intlify_authoring_js/src/metadata.rs:397-416 | Of the nodes sharing a nonempty span the last entered is the innermost: every other is its ancestor, or has the same owner where several leaves side by side share it |
| Ownership.LastEntryOwns | crates/intlify_authoring_js/src/metadata.rs:397-416 | The owner left for a span is the statement that owns the innermost node with it |
| GapOrder.NodeTidy | crates/intlify_authoring_js/src/metadata.rs:454-475 | No two gaps of a tree share an interior byte, in whatever order its nodes are visited and even where leaves share a span |
| GapOrder.Locate | crates/intlify_authoring_js/src/metadata.rs:254-272 | Sorting, searching and checking the end finds a gap exactly when some gap contains the comment, and then the only one |
| Annotations.GroupBy | crates/intlify_authoring_js/src/metadata.rs:274-279 | The map from statement to indices holds every index under its own statement, in order |
| Annotations.ReadComments | crates/intlify_authoring_js/src/metadata.rs:186-201 | The annotations are the marked comments, in order, and each misspelled one is reported |
| Annotations.CheckAnnotations | crates/intlify_authoring_js/src/metadata.rs:203-222 | Each annotation is checked against its byte limit first, and each that fails is reported once |
| Annotations.PlaceAnnotations | crates/intlify_authoring_js/src/metadata.rs:254-272 | Each annotation is filed under the statement it precedes, and those that precede none are reported, in order |
| Annotations.SettleOne | crates/intlify_authoring_js/src/metadata.rs:281-313 | Settling one statement writes the note of the only declaration it owns, and appends, in order, what its annotations are owed |
| Annotations.InKeyOrder | crates/intlify_authoring_js/src/metadata.rs:281 | Statements are taken once each, in the order of their spans |
| Annotations.Scene.OneSettlingOrder | crates/intlify_authoring_js/src/metadata.rs:281 | Only one order is that |
| Annotations.SettleGroups | crates/intlify_authoring_js/src/metadata.rs:281-313 | Every declaration ends with its own note, and the records appended are those of the statements in span order, each statement's in the order of its annotations |
| Annotations.AttachedOnce | crates/intlify_authoring_js/src/metadata.rs:175-315 | Every annotation's report, and nothing else, is made, once |
| Annotations.Attach | crates/intlify_authoring_js/src/metadata.rs:175-315 | After the whole step every declaration carries the note decided from the tree alone, and the records are, in order, the earlier ones, the misspelled, the failed, the misplaced and then each statement's; it fails exactly when those do not fit the budget |
| AnnotationMeaning.OwnerMeans | crates/intlify_authoring_js/src/metadata.rs:386-416 | A declaration's owner is the statement that owns the innermost node with its span |
| AnnotationMeaning.PlacedMeans | crates/intlify_authoring_js/src/metadata.rs:254-272 | An annotation is placed before the one statement it precedes |
| AnnotationMeaning.ValidExactly | crates/intlify_authoring_js/src/metadata.rs:281-313 | A declaration carries values exactly when its statement owns only it and exactly one annotation precedes that statement and passes its checks with those values |
| AnnotationMeaning.RejectedExactly | crates/intlify_authoring_js/src/metadata.rs:281-313 | It is rejected exactly when its statement owns only it and that one annotation fails its checks, or several precede the statement |
| AnnotationMeaning.AbsentExactly | crates/intlify_authoring_js/src/metadata.rs:281-313 | It carries nothing exactly when no annotation reaches it |
| AnnotationMeaning.ReachesOne | crates/intlify_authoring_js/src/metadata.rs:281-313 | No annotation reaches two declarations |
| AnnotationMeaning.NoneForgotten | crates/intlify_authoring_js/src/metadata.rs:281-313 | An annotation that passes its checks and goes unreported gives its values to a declaration, or its statement declares nothing and was already reported |
| AnnotationMeaning.SceneDecides | crates/intlify_authoring_js/src/metadata.rs:175-315 | What `attach` decides from is the tree, the declarations and each annotation's own check |
| AnnotationReports.NotesExactly | crates/intlify_authoring_js/src/metadata.rs:203-222 | A declaration carries values exactly when the one annotation before the statement that owns only it is no longer than the limit and holds just those values, and is rejected exactly when that one is longer or holds none, or there are several |
| AnnotationReports.FormsExactly | crates/intlify_authoring_js/src/metadata.rs:186-201 | Comment by comment, a misspelled one is reported and no other is |
| AnnotationReports.CandidatesExactly | crates/intlify_authoring_js/src/metadata.rs:186-201 | Comment by comment, a marked one is an annotation and no other is |
| AnnotationReports.ChecksExactly | crates/intlify_authoring_js/src/metadata.rs:203-222 | Annotation by annotation, one longer than the limit is reported for its bytes, one within it for the error of its JSON, and no other is |
| AnnotationReports.Unit.FateMeans | crates/intlify_authoring_js/src/metadata.rs:254-313 | Why an annotation is reported, told of the tree: it precedes nothing, or does not alone precede its statement, or that statement owns several declarations, or none and a shared use, or nothing at all and nothing in it was reported |
| AnnotationReports.AttachSays | crates/intlify_authoring_js/src/metadata.rs:175-315 | After reading and checking, the records are those of annotations that precede nothing, in order, then for each statement by start and end those of its annotations |
| Aliases.EndsWithin | crates/intlify_authoring_js/src/explicit.rs:590-607 | An alias chain that ends has no more links than there are constants |
| Aliases.TooLong | crates/intlify_authoring_js/src/explicit.rs:590-607 | One link more than that means the chain never ends |
| Aliases.EndlessIsCycle | crates/intlify_authoring_js/src/explicit.rs:590-607 | A chain never ends exactly when it comes back to a symbol it has passed |
| Recognizer.Walk.Named | crates/intlify_authoring_js/src/explicit.rs:584-619 | The loop, cut off as it is, answers what the whole chain gives |
| Aliases.NamedExactly | crates/intlify_authoring_js/src/explicit.rs:584-619 | An alias exactly when one or more links reach an `mf2` initializer, a declaration or a failed one exactly when none do, an intrinsic or module by the symbol the chain leaves the constants at, dynamic on every cycle and everywhere else |
| Aliases.NameOfCycle | crates/intlify_authoring_js/src/explicit.rs:584-619 | A cycle is never anything but dynamic |
| Aliases.NamesOne | crates/intlify_authoring_js/src/explicit.rs:584-619 | What an identifier names is one thing |
| Aliases.ChainsMean | crates/intlify_authoring_js/src/explicit.rs:584-619 | A chain, written out symbol by symbol, leads to a tag, out of the constants, or round |
| Recognizer.Walk.Mf2 | crates/intlify_authoring_js/src/explicit.rs:313-342 | A tag without substitutions that can be read is declared within the limit and found again by its span; one that cannot be read, or has substitutions, declares nothing |
| Recognizer.Walk.Resolve | crates/intlify_authoring_js/src/explicit.rs:553-581 | Every deferred identifier, in order, becomes a shared use of the declaration it names or a record of why not, failing exactly when uses or records do not fit |
| Recognizer.RecordsExactly | crates/intlify_authoring_js/src/explicit.rs:553-581 | Identifier by identifier: an alias is reported exactly when aliases lead to an `mf2` initializer, a module reference exactly when the chain leaves at an import that is no intrinsic, a dynamic message exactly for a global, a cycle or any other end, and nothing otherwise |
| Recognizer.UsesExactly | crates/intlify_authoring_js/src/explicit.rs:553-581 | Identifier by identifier: a shared use of the tag's declaration, with the parameters supplied, exactly when the identifier is itself bound to a tag that declared one and parameters are there |
| Recognizer.NeighboursOverlap | crates/intlify_authoring_js/src/explicit.rs:636-645 | In order, some two ranges overlap exactly when two neighbours do |
| Recognizer.Overlapping | crates/intlify_authoring_js/src/explicit.rs:636-645 | Overlap is found exactly when any two ranges, anywhere in the list, each start before the other ends |
| Merging.Merge | crates/intlify_authoring_js/src/analysis.rs:364-392 | The merged unit lists both sets of declarations, and every use still uses what it used; it fails exactly over a limit or on an overlap |
| Jsonc.Relexed | crates/intlify_cli/src/config.rs:727-793 | Read again, with or without an eye for comments, the comment pass's output has its strings where they were and no comment |
| Jsonc.BlankedIdempotent | crates/intlify_cli/src/config.rs:727-793 | The comment pass leaves no comment and changes nothing the second time, unterminated comments and strings included |
| JsoncBytes.BlankedBytes | crates/intlify_cli/src/config.rs:727-793 | Byte by byte, the comment pass writes a space over a comment's bytes but its newlines, and over nothing else |
| JsoncBytes.BlankedRelexed | crates/intlify_cli/src/config.rs:727-793 | The strings of its output are on the same bytes |
| JsoncBytes.SwappedKinds | crates/intlify_cli/src/config.rs:795-834 | Blanking commas outside strings changes what no character is part of |
| JsoncBytes.NormalizedBytes | crates/intlify_cli/src/config.rs:339-342 | Normalizing keeps the byte length, the offset of every newline and every byte of every string, and its result holds no comment |
| JsoncBytes.IdempotentExactly | crates/intlify_cli/src/config.rs:720-725 | Normalizing twice changes nothing more exactly when, comments blanked, no comma outside strings is followed by a trailing comma |
| JsoncBytes.NotIdempotent | crates/intlify_cli/src/config.rs:795-834 | `[1,,]` does change the second time |
| Normalizer.StripComments | crates/intlify_cli/src/config.rs:727-789 | The flag-driven loop blanks exactly the comments of an independent account of the tokens |
| Normalizer.LineComment | crates/intlify_cli/src/config.rs:752-764 | A line comment is masked up to its newline, which stays |
| Normalizer.BlockComment | crates/intlify_cli/src/config.rs:766-783 | A block comment is masked up to the first star and slash after its opening, so `/*/` does not close itself |
| Normalizer.StripTrailingCommas | crates/intlify_cli/src/config.rs:795-834 | In place, a comma becomes a space exactly when, in the input, it is outside strings with nothing but whitespace before a closing bracket |
| Normalizer.Normalize | crates/intlify_cli/src/config.rs:720-725 | The two passes together |
| JsoncTokens.WrittenAs | crates/intlify_cli/src/config.rs:727-793 | Every text is written with tokens: strings taken one or, behind a backslash, two characters at a time, comments of both kinds, and single characters |
| JsoncTokens.KindsExactly | crates/intlify_cli/src/config.rs:727-834 | What is a string and what is a comment is what the tokens a text is written with say, whichever they are |
| JsoncTokens.StrippedExactly | crates/intlify_cli/src/config.rs:727-793 | The comment pass writes the tokens, with the characters of comments but newlines as spaces |
| JsoncTokens.UncommaExactly | crates/intlify_cli/src/config.rs:795-834 | A comma outside strings is blanked exactly when nothing but White_Space scalars, listed in numbers, stands between it and 0x7D or 0x5D, and nothing else changes |
| JsoncTokens.NormalizedExactly | crates/intlify_cli/src/config.rs:720-725 | Normalizing is that second pass over what the first one writes |
| Reporting.SnapshotLaws | crates/intlify_authoring/src/primitives.rs:431-438 | Comparing snapshots is total and transitive |
| Reporting.OccurrenceLaws | crates/intlify_authoring/src/primitives.rs:531-541 | So is comparing occurrences |
| Reporting.LocationLaws | crates/intlify_authoring/src/diagnostic.rs:403-417 | So is comparing locations of all three kinds |
| Reporting.RelatedLaws | crates/intlify_authoring/src/diagnostic.rs:632-643 | Comparing related occurrences by length first and then pair by pair is lawful although pairing stops at the shorter list |
| Reporting.ReportingIsTotal | crates/intlify_authoring/src/diagnostic.rs:608-644 | The reporting order is a total preorder through every optional part |
| Reporting.ReportingEqualExactly | crates/intlify_authoring/src/diagnostic.rs:608-644 | Records compare equal exactly when they differ in nothing but declared byte lengths |
| Reporting.SortedReportsAgree | crates/intlify_authoring/src/diagnostic.rs:601-607 | The same records, however they arrive, sort to lists equal position by position |
| ReportingKey.ReportsByKey | crates/intlify_authoring/src/diagnostic.rs:608-644 | The reporting order is the byte order of one flat key of every field in its stated precedence |
| ReportingKey.OccursByKey | crates/intlify_authoring/src/primitives.rs:531-541 | So is the order of occurrences |
| Collecting.Sink.Push | crates/intlify_authoring/src/declaration.rs:306-316 | The collector keeps the first records up to its budget and knows whether more arrived |
| Collecting.CompareParameters | crates/intlify_authoring/src/declaration.rs:837-885 | The verdict is that the supplied names are the required ones, each once, whatever the sink keeps; the records are those of every name that is wrong, in the stated order |
| Collecting.MatchesExactly | crates/intlify_authoring/src/declaration.rs:837-885 | No record is made exactly when the names match |
| Collecting.OneRecordEach | crates/intlify_authoring/src/declaration.rs:837-885 | A repeated name is reported each further time, an extra one once, a missing one as often as it is required |
| Collecting.RecordsExactly | crates/intlify_authoring/src/declaration.rs:837-885 | Parameter by parameter as supplied, each repeated or extra one is reported with its own expression, then name by name as required each missing one |
| Resolution.RejectDuplicates | crates/intlify_authoring/src/declaration.rs:408-426 | Inputs are refused exactly when two, anywhere in the list, claim one position |
| Resolution.TiesMean | crates/intlify_authoring/src/declaration.rs:408-426 | That is having the same owner, unit, revision, grammar, digest, range and role |
| Resolution.Resolve | crates/intlify_authoring/src/declaration.rs:354-406 | Resolution succeeds exactly when nothing fails and the records fit their budget; then none is lost, the facts are all there in canonical order, and it is checked exactly when nothing was blocked. Otherwise the failure is that of the first check before resolving that is not met, else of the first input in order that fails or brings the records over budget, failing first |
| Resolution.FactsIncrease | crates/intlify_authoring/src/declaration.rs:396 | The facts are strictly increasing |
| Resolution.ResolvableAnyOrder | crates/intlify_authoring/src/declaration.rs:354-406 | Whether the inputs resolve does not depend on their order |
| Resolution.OrderIndependent | crates/intlify_authoring/src/declaration.rs:354-406 | In another order the outcome and facts are the same and the records agree one by one up to declared byte lengths |
| Resolution.ReportsMean | crates/intlify_authoring/src/declaration.rs:354-406 | The facts and records of a result are those of each input, its own, put in order |
| Resolution.OneFailure | crates/intlify_authoring/src/declaration.rs:354-406 | For one order of the inputs there is one failure |
| Resolution.OrderDecides | crates/intlify_authoring/src/declaration.rs:373-394 | Two inputs fail differently in their two orders |
| Resolution.FailsAlikeExactly | crates/intlify_authoring/src/declaration.rs:373-394 | Once the checks before resolving pass, every order that fails gives the same failure exactly when all failing inputs carry one error and, if any input fails, the records of those that do not fit the budget |
| Resolution.FactsFor | crates/intlify_authoring_js/src/analysis.rs:483-493 | The binary search with its equality check finds facts exactly when some in the list have that very occurrence |
| Handover.Settle | crates/intlify_authoring_js/src/analysis.rs:495-528 | Every use whose declaration was established, with matching parameters where it is shared, becomes a reference, in canonical order; it fails exactly when records do not fit |
| Handover.ReferencesMean | crates/intlify_authoring_js/src/analysis.rs:495-528 | Every reference is to the facts of the declaration its use names, and supplies what they require |
| Handover.UsesMean | crates/intlify_authoring_js/src/analysis.rs:495-528 | Use by use: a reference exactly when its declaration was established and, for a shared use, the parameters match; records of a comparison exactly for a shared use |
| Handover.ReferencesOrdered | crates/intlify_authoring_js/src/analysis.rs:495-528 | References come back by the occurrences that use |
| Admission.SortedMembers | crates/intlify_authoring_js/src/unit.rs:143-154 | Members come back strictly in unit order, or the least unit named twice |
| Admission.IsMember | crates/intlify_authoring_js/src/unit.rs:158-162 | The binary search answers exactly when the unit is a member at that revision |
| Admission.CheckUnits | crates/intlify_authoring_js/src/unit.rs:202-225 | The first unit in unit order that fails a check decides, with the checks in their stated order |
| Admission.FindMissing | crates/intlify_authoring_js/src/unit.rs:227-239 | The first member in unit order that nothing was supplied for is reported |
| Admission.AdmitUnits | crates/intlify_authoring_js/src/unit.rs:174-262 | Admission is decided by the two lists put in unit order |
| Admission.AdmitsExactly | crates/intlify_authoring_js/src/unit.rs:174-262 | It succeeds exactly when no unit or member is named twice, every unit may be read and is a member at its revision, the whole stays in bounds, and a complete scope has every member supplied |
| Admission.AdmittedUnits | crates/intlify_authoring_js/src/unit.rs:174-262 | Admitted units are strictly ascending, each a member at its own revision, exactly the supplied ones, and of a complete scope exactly the members |
| Admission.OrderIndependent | crates/intlify_authoring_js/src/unit.rs:171-262 | Either list permuted, the result or the failure is the same |
| Verdicts.RefusalMeans | crates/intlify_authoring_js/src/unit.rs:174-262 | What each refusal means: the first unit in unit order that is foreign, unregistered, no member, too long or takes the total over its bound, the least name given twice, the least member lacking, or the first unit whose bytes are not its snapshot's |
| Verdicts.AdmittedMeans | crates/intlify_authoring_js/src/unit.rs:240-262 | Of each unit, in unit order, its own snapshot and registered grammar are admitted, and its text exactly when its bytes are UTF-8 |
| Assembly.AssembleInventory | crates/intlify_authoring_js/src/inventory.rs:121-229 | Assembly is decided by the membership and the analyses put in unit order |
| Assembly.OrderIndependent | crates/intlify_authoring_js/src/inventory.rs:117-229 | Either list permuted, the inventory or the failure is the same |
| Assembly.CheckedExactly | crates/intlify_authoring_js/src/inventory.rs:215-228 | It is checked exactly when every unit is, and its records are every unit's, none lost, in reporting order |
| Assembly.CompleteExactly | crates/intlify_authoring_js/src/inventory.rs:83-96 | Complete input is answered exactly for a complete scope with every unit checked, and then every member was read at its own revision |
| Sealing.SealedExactly | crates/intlify_authoring_js/src/inventory.rs:187-229 | What is sealed is, unit by unit in unit order, its own source and outcome and its own declarations, references and exclusions, together those of all the analyses, none lost |
| Sealing.RefusalMeans | crates/intlify_authoring_js/src/inventory.rs:121-212 | What each refusal means: the first analysis in unit order that is foreign, read under another basis or profile, or no member; the least unit given twice; the least member not read; too many declarations or records together; a scope with no name; or what was not sealed |
| Sealing.SuccessMeans | crates/intlify_authoring_js/src/inventory.rs:121-229 | A success met every one of these checks |
| Bindings.New | crates/intlify_authoring_js/src/binding.rs:125-154 | A set is refused for its first empty name, else for the first export named twice in order |
| Bindings.AcceptsExactly | crates/intlify_authoring_js/src/binding.rs:125-154 | It is accepted exactly when no name is empty and no export is named twice |
| Bindings.OrderMeans | crates/intlify_authoring_js/src/binding.rs:125-154 | The set is in order of module, export and intrinsic |
| Bindings.ErrorMeans | crates/intlify_authoring_js/src/binding.rs:125-154 | What each error means: the first empty name, else the least export named twice, a duplicate when its soonest intrinsic is given twice and a conflict when it is given once |
| Bindings.OrderIndependent | crates/intlify_authoring_js/src/binding.rs:125-154 | Unless both kinds of empty name occur, the result or the error does not depend on the order given |
| Bindings.MixedDiffers | crates/intlify_authoring_js/src/binding.rs:125-154 | With both kinds it does |
| Bindings.Find | crates/intlify_authoring_js/src/binding.rs:170-177 | The binary search finds the intrinsic registered for exactly that module and export |

## Left out

- The host parser and its syntax trees: the tree is abstract, and which node is a statement list, a test, a directive or a barrier is given.
- The comparison of a decoded literal with the parser's own value in `cook_string` and `cook_template`, and the exclusion of unescaped quotes and line terminators, which the parser enforces.
- Reading a comment's marker and an annotation's JSON (`read`, `values`): each comment comes with what it was read as, and each annotation with its values or its error.
- The recognizer's own walk: which calls and tags it claims, what `intent()` and `noIntent()` report about their arguments, and the scan of imports.
- Cancellation probes, which only end a run without a result.
- The parser-invariant failure of a span that does not fit its unit: ranges are within their unit here.
- Sorting.Sort: promises nothing about the order of ties, as the unstable sort of the code does not; the stable sort is `Sorting.StableSort`.
- The resolution of one declaration (locale, surface class, usage, description, projections, message analysis) is one given function.
- What an inventory's builder sorts and validates, and sealing it, are one given function of what the builder is handed.
- Digests, JSON encoding, schemas, file access, argument handling and rendering.
- Identity reconciliation, compilation and the registry.
