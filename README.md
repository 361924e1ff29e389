# QuantumultX configuration generator: a Dafny model of the merge engine

The generator downloads a shared QuantumultX configuration document. It
splits the document into named sections and merges a personal
configuration into them:

- certificate lines go into `[mitm]`;
- extra rewrite, server, DNS and filter entries are appended;
- personal static policy groups go into `[policy]`;
- custom sections are added.

It then writes the document back in a fixed section order, applies literal
global replacements, and checks that the `[mitm]` block carries a usable
certificate before the result may be saved.

This project models that engine, method by method, on Python's string
semantics:

- `str.split('\n')` never yields an empty list;
- `str.strip()` removes the characters of `str.isspace`;
- dict insertion order is kept;
- `sorted` is code-point lexicographic;
- `str.count` and `str.replace` scan left to right without overlap, and the
  empty pattern matches at every position.

Each of the generator's methods is a Dafny `method` with the loops of the
source. Its contract equals it to a specification function. The properties
the generator promises are lemmas about those functions.

Modules:

- `Text`: split, join, strip, prefix and substring tests.
- `Sections`: the parsed document as an association list.
- `Config`: the personal configuration, already decoded.
- `Parser`: parse_config_sections.
- `Dedup`: add_config_items.
- `Mitm`: update_mitm_section.
- `Policy`: add_personal_policies_smart.
- `Replace`: apply_global_replacements.
- `Order`: the sort of the non-standard section names.
- `Serializer`: generate_final_config.
- `Validator`: validate_mitm_section, and the part of `run` that saves only
  a document that passed the check.
- `RoundTrip`: what a generated document parses back as.
- `MitmFindings`: three inputs on which update_mitm_section misses its
  design, and a corrected patch proved against the validator.

The regular expressions of the source become predicates that say what each
pattern accepts:

- `Parser.IsHeader` for `^\[([^\]]+)\]$`;
- `Mitm.KeyAt` and `Mitm.HasKey` for `^key\s*=` with MULTILINE;
- `Policy.GroupName` and `Policy.DefinedName` for the group-name patterns.

## Model

| member | source | states |
|---|---|---|
| Parser.ParseConfigSections | quantumultx_generator.py:259-288 | The dict built is ParseSections(content): each header-opened block's lines, joined and stripped, assigned to its name in order; lines before the first header are dropped; a last block with no line after its header is not assigned; no name appears twice |
| Parser.HeaderName | quantumultx_generator.py:268-275 | The captured section name is non-empty and holds no closing bracket |
| Parser.BlocksCover | quantumultx_generator.py:266-281 | Every line of the document is either in the header-free preamble or in exactly one block, in order: nothing is lost or reordered |
| Parser.BlocksWellFormed | quantumultx_generator.py:266-281 | Every block starts with a header line and holds no other header line |
| Parser.BlocksOfLayout | quantumultx_generator.py:266-281 | A header-free preamble followed by well-formed blocks reads back as exactly those blocks |
| Parser.PreambleTextDropped | quantumultx_generator.py:277-279 | Header-free text placed in front of a document that starts with a header does not change the parse |
| Parser.RecordLast | quantumultx_generator.py:270-272 | When several recorded blocks share a name, the body kept is that of the last one |
| Parser.RecordAbsent | quantumultx_generator.py:283-284 | A name that heads no recorded block is absent from the result |
| Parser.RecordDistinct | quantumultx_generator.py:259-288 | The parsed sections never hold the same name twice |
| Sections.Lookup | quantumultx_generator.py:544 | sections.get is None exactly when the name is not a key |
| Sections.Put | quantumultx_generator.py:272 | Dict assignment: the key maps to the new body, every other key is unchanged, and a new key goes last while an existing key keeps its place |
| Dedup.AddConfigItems | quantumultx_generator.py:457-489 | The body returned is AddItems(content, items): unchanged for an empty list; otherwise the body's lines followed by the added candidates |
| Dedup.ExistingMember | quantumultx_generator.py:466-471 | A text is an existing item exactly when some non-blank, non-comment body line strips to it |
| Dedup.AddedMember | quantumultx_generator.py:474-481 | A line is appended exactly when it is the non-empty strip of some string candidate and is not an existing item |
| Dedup.AddedFacts | quantumultx_generator.py:474-481 | Every appended line is non-empty, already stripped, not an existing item, and appended once |
| Dedup.AddedAppend | quantumultx_generator.py:475-481 | Candidates are handled in order: those of a + b are the ones added for a, then the ones added for b against everything seen so far |
| Dedup.AddedNothing | quantumultx_generator.py:475-481 | When every string candidate is blank or already known, nothing is appended |
| Dedup.NothingNewUnchanged | quantumultx_generator.py:483-489 | With nothing to add, the body comes back exactly as given |
| Dedup.AppendsAfterBody | quantumultx_generator.py:474-489 | Otherwise the result is the body, a newline, and the added lines, one per line |
| Dedup.AddItemsIdempotent | quantumultx_generator.py:457-489 | Merging the same single-line, non-comment candidates a second time changes nothing |
| Dedup.CommentCandidateRepeats | quantumultx_generator.py:469-481 | A candidate that reads as a comment is never seen as present, so every merge appends it again |
| Mitm.UpdateMitmSection | quantumultx_generator.py:308-366 | The body returned is PatchMitm(content, passphrase, p12): rewritten in place when both keys are present, certificate lines inserted otherwise, untouched when either value is empty |
| Mitm.ReplaceCertificateLines | quantumultx_generator.py:335-345 | The loop builds RewriteAll: one output line per input line |
| Mitm.InsertAfterHostname | quantumultx_generator.py:347-359 | The loop builds Expand: each line, followed by the missing certificate lines after a hostname line |
| Mitm.AnyMentionsHostname | quantumultx_generator.py:362 | True exactly when some line contains "hostname =" |
| Mitm.NormalizeFacts | quantumultx_generator.py:310-320 | An empty list gives "", a list gives its first element treated as a scalar, and the value never starts or ends with whitespace |
| Mitm.IncompleteUnchanged | quantumultx_generator.py:322-324 | An empty passphrase or p12 leaves the body untouched |
| Mitm.RewriteAllLines | quantumultx_generator.py:337-343 | Line i of the rewrite is the new passphrase line, the new p12 line or line i itself, by its stripped prefix |
| Mitm.BothKeysRewrite | quantumultx_generator.py:329-345 | With both keys present, the returned body has as many lines as the input, and each line is replaced or kept by that rule |
| Mitm.ExpandAppend | quantumultx_generator.py:350-359 | The insertion works line by line: expanding a + b is expanding a, then expanding b |
| Mitm.ExpandWithoutHostname | quantumultx_generator.py:350-359 | Without a hostname line the insertion loop changes nothing |
| Mitm.HostnameLineMentions | quantumultx_generator.py:353-362 | A line whose stripped form starts with "hostname =" contains "hostname =" |
| Mitm.AppendsBothWithoutHostname | quantumultx_generator.py:361-366 | When a key is missing and no line mentions a hostname, both certificate lines are appended at the end, even the one whose key was found |
| Policy.AddPersonalPoliciesSmart | quantumultx_generator.py:368-455 | The body returned is MergePolicies(content, policies): unchanged when there are no policies or none is accepted; otherwise the static lines, the accepted policies, an empty line, the comments, the benchmark lines and the other non-blank lines |
| Policy.Classify | quantumultx_generator.py:381-396 | The four buckets are the body's lines of each kind, in order |
| Policy.CollectNames | quantumultx_generator.py:400-406 | The names collected are the group names defined by the static and benchmark lines |
| Policy.AcceptPolicies | quantumultx_generator.py:408-428 | The policies accepted are Accepted(names, policies), and added_count is their number |
| Policy.ConsiderPolicy | quantumultx_generator.py:410-425 | One pass of the loop: a string policy, stripped, whose static group is not yet known is appended, its group becomes known and the count grows by one; any other policy changes nothing |
| Policy.AcceptStep | quantumultx_generator.py:408-425 | Accepting one more policy adds its candidate exactly when it names a group neither defined in the body nor accepted before |
| Policy.MergePoliciesIdempotent | quantumultx_generator.py:368-455 | Merging the same single-line policies into the merged body a second time returns it unchanged: every group they name is then defined by one of its static lines |
| Policy.FirstComma | quantumultx_generator.py:404-414 | The position of the first comma, or the length when there is none |
| Policy.Partition | quantumultx_generator.py:387-396 | The five buckets hold every body line exactly once, as a multiset |
| Policy.BlankBucket | quantumultx_generator.py:395-396 | The lines that go to no bucket are blank |
| Policy.OthersNonBlank | quantumultx_generator.py:450-452 | Every line of the other bucket is non-blank, so the final filter keeps them all |
| Policy.BucketAppend | quantumultx_generator.py:387-396 | Bucketing works line by line: the bucket of a + b is that of a followed by that of b |
| Policy.BucketUniform | quantumultx_generator.py:387-396 | Lines that all have one kind go entirely to that bucket and to no other |
| Policy.AcceptFacts | quantumultx_generator.py:408-428 | Every accepted policy names a group not defined before, no group is accepted twice, and the accepted policies are some of the given ones |
| Policy.AcceptMember | quantumultx_generator.py:417-425 | A group name is accepted exactly when some candidate names it and the body does not define it |
| Policy.AcceptedGroup | quantumultx_generator.py:410-425 | A group is added exactly when some string policy, stripped, reads static=NAME with NAME not defined in the body |
| Replace.ApplyGlobalReplacements | quantumultx_generator.py:491-508 | The document returned is ApplyAll(content, replacements): each well-formed entry applied in list order |
| Replace.NoOccurrenceUnchanged | quantumultx_generator.py:503-505 | Where the pattern does not occur, replacing changes nothing |
| Replace.ApplyOneIsReplaceAll | quantumultx_generator.py:500-505 | The count guard changes nothing: an entry acts as a plain replace-all |
| Replace.ReplaceAllLength | quantumultx_generator.py:503-505 | The length changes by the occurrence count times the length difference of the replacement and the pattern |
| Replace.ReplaceBySelf | quantumultx_generator.py:503-505 | Replacing a non-empty pattern by itself gives the document back |
| Replace.ApplyAllAppend | quantumultx_generator.py:499-505 | The entries compose: applying a + b is applying a, then b |
| Replace.MalformedSkipped | quantumultx_generator.py:500 | Entries that are not dicts with both keys change nothing |
| Replace.LeftToRight | quantumultx_generator.py:503-505 | Occurrences are found left to right, without overlap: "aaa" holds "aa" once and becomes "ba" |
| Replace.EmptyPattern | quantumultx_generator.py:503-505 | The empty pattern occurs before every character and at the end: "ab" becomes "-a-b-" |
| Order.LexTotal | quantumultx_generator.py:582 | Any two names are comparable |
| Order.LexAntisymmetric | quantumultx_generator.py:582 | Names that precede each other are equal |
| Order.LexTransitive | quantumultx_generator.py:582 | The name order is transitive |
| Order.SortFacts | quantumultx_generator.py:582 | The sort is ordered and a permutation of its input |
| Order.SortedUnique | quantumultx_generator.py:582 | Two ordered permutations of each other are equal |
| Order.SortPermutation | quantumultx_generator.py:582 | The sorted names depend only on the set of names, not on their order |
| Serializer.GenerateFinalConfig | quantumultx_generator.py:510-607 | The document returned is GenerateConfig: the header comments, the twelve standard blocks, the sorted non-standard parsed blocks and the custom blocks not already parsed, joined by newlines, then the replacements |
| Serializer.EmitStandard | quantumultx_generator.py:538-576 | The loop adds one block per standard name, in the fixed order, with that section's merged body |
| Serializer.EmitSection | quantumultx_generator.py:543-576 | One pass of the loop appends the section's header, its merged body when that is not blank, and an empty line |
| Serializer.StandardNamesInOrder | quantumultx_generator.py:521-534 | The twelve standard sections are general, task_local, rewrite_local, rewrite_remote, server_local, server_remote, dns, policy, filter_remote, filter_local, http_backend and mitm, in that order |
| Serializer.MergeSection | quantumultx_generator.py:544-568 | Each standard section gets its own merge step: mitm, policy and the six item lists; the others pass through |
| Serializer.EmitExtra | quantumultx_generator.py:582-587 | The loop adds one block per non-standard name, in the sorted order |
| Serializer.EmitCustom | quantumultx_generator.py:590-598 | The loop adds a block for each custom section whose name the document does not already hold |
| Serializer.ExtraNamesMember | quantumultx_generator.py:579-580 | The non-standard names are exactly the parsed names outside the twelve standard ones |
| Serializer.ExtraNamesDistinct | quantumultx_generator.py:579-580 | They are distinct when the parsed names are |
| Serializer.ExtraOrder | quantumultx_generator.py:579-582 | They come out sorted, one per non-standard parsed name |
| Validator.ValidateMitmSection | quantumultx_generator.py:641-686 | The verdict is ValidDocument(config): the last passphrase line and the last p12 line of the [mitm] block both exist, and neither holds a bracketed list |
| Validator.ExtractMitm | quantumultx_generator.py:643-656 | The loop collects MitmLines: the stripped non-blank lines after the first [mitm] line, up to the next line opening a section |
| Validator.CheckCertificate | quantumultx_generator.py:658-686 | The loop and checks give ValidMitm: the last line of each prefix wins |
| Validator.LastWithSpec | quantumultx_generator.py:664-671 | LastWith finds nothing exactly when no line has the prefix, and otherwise gives the line at the last position that has it |
| Validator.ValidMitmIff | quantumultx_generator.py:658-686 | The check passes exactly when the last passphrase line and the last p12 line exist and do not hold bracketed lists |
| Validator.Run | quantumultx_generator.py:705-726 | Nothing is saved when the remote document is missing or empty or the generated document fails the check; what is saved always passes it |
| Parser.ParsedGood | quantumultx_generator.py:259-288 | Every parsed section has a non-empty name without a closing bracket or line break and a stripped body with no line that reads as a header, and no name appears twice |
| RoundTrip.PartsEmpty | quantumultx_generator.py:512-601 | With no personal configuration, the document's lines are the comment lines, then for each standard name and each sorted non-standard name its header, its body when not blank, and an empty line |
| RoundTrip.LookupEntries | quantumultx_generator.py:538-587 | Among the written sections, a written name holds the parsed body, or empty when the parse had none, and any other name is absent |
| RoundTrip.ReadBack | quantumultx_generator.py:259-288 | Header-free comment lines followed by the blocks of well-formed sections parse back as exactly those sections, in order |
| RoundTrip.RoundTripExact | quantumultx_generator.py:510-601 | Parsing a document generated from well-formed sections with no personal configuration gives back exactly the sections written: the twelve standard ones, empty when absent, then the others in sorted order |
| RoundTrip.RoundTrip | quantumultx_generator.py:510-601 | For any document: generate from its parse with no personal configuration and parse again; a standard name then holds the body the first parse gave it, or empty, and any other name is present with the same body or absent exactly as in the first parse |
| MitmFindings.BracketedValueWritten | quantumultx_generator.py:319-345 | As written: with both certificate lines present, a value starting with '[' is written into the passphrase line as it is, and the validator rejects the result; the corrected patch leaves the body alone |
| MitmFindings.UnspacedKeysIgnored | quantumultx_generator.py:329-345 | As written: in a body of "passphrase=…" and "p12=…" lines both keys count as present, no line is rewritten, the body comes back unchanged and fails the validator; the corrected patch yields a body that passes |
| MitmFindings.HostnameMentionSkipsAppend | quantumultx_generator.py:347-366 | As written: a single line "# hostname =…" blocks the final append though no hostname line received the certificate, so the body comes back unchanged and fails the validator; the corrected patch yields a body that passes |
| MitmFindings.FixedValid | quantumultx_generator.py:308-366 | The corrected patch, given writable values, always yields a [mitm] body that passes the validator when the body has no line opening a section and no bracketed certificate line |
| MitmFindings.FixedNeverWritesBracket | quantumultx_generator.py:308-366 | Every line of the corrected patch's result is a line of the body or a certificate line whose value does not start with '[' |
| MitmFindings.FixedAgrees | quantumultx_generator.py:308-366 | The code and the corrected patch give the same body when the values are writable, the regular expression finds a key exactly when some line is rewritten, and every line mentioning "hostname =" is a hostname line |
| MitmFindings.PatchValid | quantumultx_generator.py:308-366 | On those inputs the code's own patch yields a [mitm] body that passes the validator |

## Left out

- Loading the personal configuration from environment variables and
  decoding its JSON values: the model takes the decoded configuration as a
  `Config.PersonalConfig` value.
- Fetching the remote document, its cache and its MD5 hash: the document
  is an `Option<string>` parameter of `Validator.Run`, None when the fetch
  failed.
- Backups, writing the file, logging, the summary, print_usage and main:
  these are I/O and produce no value the engine uses.
- The generation time and the remote URL in the header comments are
  parameters.
- `str()` of a non-string value is taken as given: a certificate field
  holds the rendering of the scalar or of each list element.
- `Replace.ApplyGlobalReplacements`: an entry whose search or replace value
  is not a string would raise TypeError in Python. The model takes both as
  strings.
- `Serializer.GenerateFinalConfig`: a list body of a custom section with a
  non-string element would raise TypeError in Python. The model takes the
  elements as strings.
- Custom section names come from a dict, so the model assumes the list
  `customSections` holds each name at most once.
- Regular expressions: only the patterns the source uses are modelled, as
  predicates.
- The standard section list has twelve names, `http_backend` included, as
  in the code.
- Personal static policies are appended after the existing static lines,
  and the body is regrouped, as in the code.
- `RoundTrip.RoundTrip` is stated for an empty personal configuration: the
  merge steps of the standard sections have their own lemmas in `Dedup`,
  `Mitm` and `Policy`.
- The generator uses the code's certificate patch, `Mitm.PatchMitm`, so that
  the model of `generate_final_config` matches the code. The corrected
  patch of the findings below, `MitmFindings.PatchMitmFixed`, is proved
  alongside it, and `MitmFindings.FixedAgrees` says on which inputs the two
  agree.

## Findings

| source | as written | input that shows it | evidently intended | confidence | as-written member | corrected member |
|---|---|---|---|---|---|---|
| quantumultx_generator.py:314-320 | A certificate value is only stripped: a scalar string starting with `[`, or a list whose first element renders as a list, is written into `passphrase = …` as it is | body `passphrase = a\np12 = b`, passphrase `"[x]"`, p12 `"y"`: the result is `passphrase = [x]\np12 = y`, which validate_mitm_section rejects | The patch never writes a certificate line whose value starts with `[`: such a value is refused like an incomplete one | not executed | MitmFindings.BracketedValueWritten | MitmFindings.FixedNeverWritesBracket |
| quantumultx_generator.py:329-343 | Keys are detected by `^passphrase\s*=` and `^p12\s*=`, but lines are rewritten only when they strip to a start of `passphrase =` or `p12 =` with the space | body `passphrase=a\np12=b` with a complete certificate: both keys are found, no line is rewritten, the new certificate is dropped and the run fails validation | A key counts as present exactly when some line is one the rewrite replaces | not executed | MitmFindings.UnspacedKeysIgnored | MitmFindings.FixedValid |
| quantumultx_generator.py:361-364 | The final append is skipped when any line contains `hostname =`, though insertion only follows lines that strip to a start of `hostname =` | body `# hostname = h` with a complete certificate and no certificate lines: nothing is inserted and nothing appended; the run fails validation | The certificate lines are appended when no hostname line received them | not executed | MitmFindings.HostnameMentionSkipsAppend | MitmFindings.FixedValid |
