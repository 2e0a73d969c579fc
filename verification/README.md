# eidolon_sdk: verified models

Dafny models of the parts of eidolon_sdk that compute something: the capability schema language, two codecs,
several small state machines and the bounded loops between them. Each model follows the Python code branch by
branch; each is tied to a description that does not follow the code. `dafny verify dfyconfig.toml` checks everything.

| files | model of |
|---|---|
| Json, Text, Lists, Sorting, Utf8, JsonText, JsonReader, Wrappers | Python's JSON values (`==`, truthiness, lookup), decimal text, string order, `sorted`, UTF-8, `json.dumps`, and a reader of RFC 8259 |
| Schema, Arguments, SchemaMeaning, Capability, Admission | capability schemas: admission, interpretation, meaning (biz/body/manifest.py) |
| Base64Url, Subjects | owner segments and session keys (biz/long_tasks/subjects.py) |
| Locator | the signed directory: acceptance, restarts, resolution (device_foundation/v1/authority_locator.py) |
| Panel | panel snapshots and deltas over a lossy channel (biz/smarthome) |
| Persona, Authoring | persona evolution and owner authoring (biz/persona.py) |
| Transcript | the tool transcript check (integrations/llm/openai_messages.py) |
| Inventory, LeafMutation | golden-vector field inventory and leaf mutation (conformance/run.py) |
| Sse | event-stream frames, and the reader of section 9.2.6 of the WHATWG HTML Standard (core/streaming/sse.py) |
| ClaimPages, DeviceRef, HttpRetry | claim event pages, DeviceRef correction, the HTTP retry loop |

How the code's data is represented:

- A JSON dict is its list of items in insertion order; `Json.WellFormed` says that no dict repeats a key. Floats are
  reals, so NaN and the infinities do not occur.
- A schema document is turned once into its keyword lookups (`Schema.Read`): an absent key and an explicit null stay
  distinct, because `const` and `enum` are tested for presence and the others are not. `ReadKeepsMeaning`
  says of the raw document, by the names of its keywords, what fitting that schema means.
- How a float is spelled in JSON text is a parameter. Reading text back asks of the floats in a document that their
  spelling is a number text that stands for them, as the decimal floats of JSON have it, and of the separators that
  they are a comma and a colon with spaces behind them if any.
- The interpreter's result carries the error text, and beside it the path and the clause it stands for; `Raised` is a
  Python exception. `re.search`, and the part of a message that formats schema values, are parameters.
- Certificates and signatures are two predicates of the trust anchor. Instants are integers, or naive.
- The panel's receiver is the rule written in the `PanelDelta` contract text; it is the only code there is for it. The
  host is any history in which a registry change raises the revision and a state change raises seq by one and
  publishes the full new state of every device that differs. Snapshots and deltas of any moment may be lost, repeated
  and reordered.
- A trait value, the step bound of an evolution, and the retry backoff are reals: rounding is not modelled.
- An id in a tool transcript is taken after `str(...)`, a falsy one being `Missing`.
- A claim page reader that appends only positions past its checkpoint is the consumer the page contract is for; the
  repository holds only the page side.

Where the code does something a reader may not expect, the model follows the code:

- Admission skips `enum: null`, and the interpreter tests the key's presence, so such a schema is admitted and then
  raises on every value (`NullEnumIsAdmittedAndRaises`). `ValidateDecides` covers every admitted schema: an exception
  arises exactly where the first broken clause is the enum of such a node.
- JSON booleans pass `isinstance(x, int)`, so `minItems: true` bounds a length by one.
- `build_persona_genome_from_draft` strips every text but the archetype, which `apply_persona_authoring` does strip.
- A rebuilt locator checks its saved descriptor at that descriptor's own issue time: expiry is irrelevant to it, the
  delegation at that time is not.
- A late snapshot moves a panel back, and nothing else does (`RunNeverGoesBackIff`): the stated rule orders deltas
  only.
- A field can leave a golden vector unnoticed, exactly when what remains still spells every path it spelled
  (`RemovedKeyAcceptedIff`); a dotted key is enough (`DottedKeyHides`).
- The reader of owner segments takes more than the printer makes: other alphabets, slack bits, ignored characters and
  escaped plain names. `PrintedIff` says which segments are the printer's.
- A comment with line breaks is written as it is, and its further lines are read as fields; `StreamReadsBackIff` says
  when that does harm.

## Model

| member | source | states |
|---|---|---|
| Schema.ValidateSchemaNode | eidolon_sdk/biz/body/manifest.py:203-256 | the recursive pass with its early-return loop gives the verdict of `Admit`, for every schema and depth |
| Schema.AdmitIffAdmissible | eidolon_sdk/biz/body/manifest.py:203-256 | a schema is admitted exactly when every node, down to depth 8, has the declared shape |
| Schema.AdmittedSchemaIsBounded | eidolon_sdk/biz/body/manifest.py:228-256 | an admitted schema has at most (64^9 - 1) / 63 nodes, as `properties` and `items` never share a node |
| Arguments.ValidateCapabilityArguments | eidolon_sdk/biz/body/manifest.py:104-183 | the recursive method with its loops over properties and items, and its test `if error`, computes `Validate` |
| Arguments.PyInIs | eidolon_sdk/biz/body/manifest.py:117-118 | `in` for a container of any kind: an equal element of a list, a key of a dict, a part of a text; anything else raises |
| Arguments.RequiredIs | eidolon_sdk/biz/body/manifest.py:121-124 | what a `required` of any kind passes, reports or raises: a list of names, a text letter by letter, a dict key by key |
| Arguments.ExtraIs | eidolon_sdk/biz/body/manifest.py:125-128 | and what a closed schema does with `properties` of any kind |
| Json.FalsyIff | eidolon_sdk/biz/body/manifest.py:121-122 | the seven documents that `or` passes over |
| SchemaMeaning.ErrorTextNotEmpty | eidolon_sdk/biz/body/manifest.py:133-139 | no error text is ever empty, for any schema, so `if error` never swallows a nested failure |
| SchemaMeaning.LocalMeaning | eidolon_sdk/biz/body/manifest.py:112-182 | one node's checks are its fourteen demands tried in order; only `enum: null` raises |
| SchemaMeaning.ValidateDecides | eidolon_sdk/biz/body/manifest.py:104-183 | for every admitted schema and every value: passes exactly when the value satisfies the quantified meaning; otherwise there is a first broken clause and the outcome is its report |
| SchemaMeaning.StopUnique | eidolon_sdk/biz/body/manifest.py:123-183 | everything before the reported clause passed: there is only one first broken clause |
| SchemaMeaning.ErrorLocates | eidolon_sdk/biz/body/manifest.py:104-183 | the path of an error exists in the value, leads to a sub-schema whose reported clause fails there while its earlier ones hold, and is the path the text spells |
| SchemaMeaning.AdmittedNeverRaises | eidolon_sdk/biz/body/manifest.py:104-183 | admission makes the interpreter total when every present `enum` is a list |
| SchemaMeaning.NullEnumIsAdmittedAndRaises | eidolon_sdk/biz/body/manifest.py:221-226 | `{"enum": null}` is admitted and raises on every value |
| SchemaMeaning.NineFramesSuffice | eidolon_sdk/biz/body/manifest.py:133-155 | with room for nine nested calls the interpreter of an admitted schema answers as with an unbounded stack |
| Admission.DocumentAcceptedIff | eidolon_sdk/biz/body/manifest.py:186-256 | when a schema document is accepted, by keyword and limit: 16384 bytes, an object at the root where asked, depth 8, 64 properties, 64 enum values, descriptions of 256 and names of 128 characters, required names declared once |
| Capability.ReadKeepsMeaning | eidolon_sdk/biz/body/manifest.py:104-182 | for every schema document and value: the value fits the schema read from it exactly when the document allows it, said by the names of its keywords and, for `const` and `enum`, position by position |
| Capability.DeclaredInputDecides | eidolon_sdk/biz/body/manifest.py:186-200 | a document accepted as an input schema passes exactly the values it allows, all of them objects, and otherwise names a place that breaks it |
| Json.PyEqIffSameValue | eidolon_sdk/biz/body/manifest.py:115-118 | `==` holds of two documents exactly when at every position they have the same constructor and contents, numbers and booleans compared by the number they stand for |
| Json.PyEqSymmetric | eidolon_sdk/biz/body/manifest.py:115 | `==` on documents, dict order aside and numbers by value, is symmetric |
| Json.PyEqTransitive | eidolon_sdk/biz/body/manifest.py:115 | and transitive |
| Json.PyEqReflexive | eidolon_sdk/biz/body/manifest.py:115 | and reflexive |
| Utf8.DecodeIffEncode | eidolon_sdk/biz/long_tasks/subjects.py:23 | decoding undoes encoding and accepts nothing but encodings |
| Base64Url.ScanInvertsEncode | eidolon_sdk/biz/long_tasks/subjects.py:34 | the scanning reader undoes the encoder on every byte string |
| Base64Url.ReadsTidied | eidolon_sdk/biz/long_tasks/subjects.py:34 | the reader takes a text for itself with `+` and `/` as `-` and `_` and every foreign character left out, and refuses characters outside ASCII |
| Base64Url.PaddingRestored | eidolon_sdk/biz/long_tasks/subjects.py:24-33 | the padding dropped is the padding put back, and what remains has only safe characters |
| Base64Url.EncodingIsCanonical | eidolon_sdk/biz/long_tasks/subjects.py:23-24 | an unpadded encoding has safe characters only, no lone last symbol, and zero in the bits its last symbol does not need |
| Base64Url.CanonicalIsEncoding | eidolon_sdk/biz/long_tasks/subjects.py:23-24 | and every such text is the unpadded encoding of some bytes |
| Subjects.OwnerIdRoundTrip | eidolon_sdk/biz/long_tasks/subjects.py:18-34 | every owner id survives the escape and its reverse |
| Subjects.SafeOwnerKeyIsSegment | eidolon_sdk/biz/long_tasks/subjects.py:18-24 | the segment is non-empty, key-safe and free of dots |
| Subjects.SessionKeyRoundTrip | eidolon_sdk/biz/long_tasks/subjects.py:37-53 | parsing a printed key returns the pair exactly when the date has eight characters, and refuses it otherwise |
| Subjects.DashGoes | eidolon_sdk/biz/long_tasks/subjects.py:43 | a date text is taken apart at its dashes and joined without them |
| Subjects.IsoDateKey | eidolon_sdk/biz/long_tasks/subjects.py:37-53 | the key of an ISO date reads back as its owner and the compact date |
| Subjects.ParseIff | eidolon_sdk/biz/long_tasks/subjects.py:47-53 | what parsing makes of any text: the owner and day of a key with those parts, a key whose segment cannot be read, or no key |
| Subjects.SessionKeysDistinct | eidolon_sdk/biz/long_tasks/subjects.py:37-44 | two keys are equal exactly when owner and day are |
| Subjects.ReencodesIffCanonical | eidolon_sdk/biz/long_tasks/subjects.py:23-34 | bytes read from a text encode back to that text exactly when it has safe characters only, no lone last symbol, and zero in the unused bits of the last symbol |
| Subjects.PrintedIff | eidolon_sdk/biz/long_tasks/subjects.py:18-34 | a segment that reads as an owner is the one printed for that owner exactly when it is a safe plain name, or an escaped canonical text of an owner that has no plain form |
| Subjects.SegmentsOfOwners | eidolon_sdk/biz/long_tasks/subjects.py:18-34 | the segments printed for some owner are exactly those that read back and are so printed |
| Subjects.EscapedPlainName | eidolon_sdk/biz/long_tasks/subjects.py:27-34 | the reader is not injective: every plain name also reads back from its escaped form, which is not what is printed |
| Directory.AuthorityLocator.Accept | eidolon_sdk/device_foundation/v1/authority_locator.py:323-345 | the new state and the error for every state, candidate and clock; a refused call changes nothing |
| Directory.AuthorityLocator.Restore | eidolon_sdk/device_foundation/v1/authority_locator.py:305-313 | a locator built from a saved descriptor holds it, or the construction raises what accepting it raises |
| Directory.ValidatedIff | eidolon_sdk/device_foundation/v1/authority_locator.py:90-99 | the constructor's test, which counts the set of endpoint identities, passes exactly the descriptors with a window that is not empty and no two endpoints alike in authority, audience and uri |
| Directory.AuthorityLocator.Resolve | eidolon_sdk/device_foundation/v1/authority_locator.py:347-366 | success exactly for the commissioned domain before expiry with an endpoint listed; the endpoints of the authority, each as listed, smaller priority numbers first, then audience and uri by code points; each error |
| Directory.AcceptedIff | eidolon_sdk/device_foundation/v1/authority_locator.py:280-345 | the exact condition for acceptance: domain, key, root, signature, window, and newer than or identical to what is held |
| Directory.RankedIsSortedPermutation | eidolon_sdk/device_foundation/v1/authority_locator.py:358-363 | resolution gives exactly the asked authority's endpoints, each once, with ascending priority numbers, on equal ones audiences and then uris by code points |
| Text.LessIffEarlier | eidolon_sdk/device_foundation/v1/authority_locator.py:358-363 | the string order is: a proper prefix first, else the smaller character at the first index that differs |
| Directory.RankedDependsOnSet | eidolon_sdk/device_foundation/v1/authority_locator.py:94-99 | descriptors listing the same endpoints in different orders resolve alike |
| Directory.ResolveSucceedsIff | eidolon_sdk/device_foundation/v1/authority_locator.py:347-366 | when resolution succeeds; never at or after expiry |
| DirectoryRuns.RunNeverRollsBack | eidolon_sdk/device_foundation/v1/authority_locator.py:331-345 | over any run (generation, revision) never decreases, and content never changes under one pair |
| DirectoryRuns.AcceptedPairsAreUnique | eidolon_sdk/device_foundation/v1/authority_locator.py:331-345 | any two descriptors accepted anywhere in a run under the same pair are identical |
| DirectoryRuns.RunEndsAtGreatest | eidolon_sdk/device_foundation/v1/authority_locator.py:323-345 | with one document per pair, any run ends at the greatest of the candidates that were in order when offered |
| DirectoryRuns.RunsConverge | eidolon_sdk/device_foundation/v1/authority_locator.py:323-345 | order, repetition and refused offers do not matter |
| DirectoryRuns.RebuildsAreInvisible | eidolon_sdk/device_foundation/v1/authority_locator.py:305-313 | rebuilds change nothing exactly when the delegation was valid at the issue time of what was held; otherwise the run stops there |
| DirectoryRuns.RestartedRunsConverge | eidolon_sdk/device_foundation/v1/authority_locator.py:305-345 | convergence with rebuilds anywhere in the run |
| Lists.UniqueIffDistinct | eidolon_sdk/biz/smarthome/__init__.py:528-534 | comparing the set's size with the list's is comparing every pair |
| Panel.ValidSnapshotIff | eidolon_sdk/biz/smarthome/__init__.py:713-757 | a snapshot is valid when every area, device and scene is named once, every area referred to is listed, and no online device is without state |
| Panel.PanelCache.Receive | eidolon_sdk/biz/smarthome/__init__.py:774-780 | the cache and the sync request after any message, by the stated rule |
| Panel.AsksIff | eidolon_sdk/biz/smarthome/__init__.py:777-779 | a panel asks for a sync, naming what it holds, exactly on a revision mismatch, a gap, or with nothing to show; never on a repeat |
| Panel.ChangesIdempotentAndUnordered | eidolon_sdk/biz/smarthome/__init__.py:762-791 | full state per unique device makes applying a delta idempotent and independent of the order of its changes |
| PanelReplication.StateChangePublishable | eidolon_sdk/biz/smarthome/__init__.py:762-791 | every change of device states can be published: some valid delta says exactly it |
| PanelReplication.DeltaReproducesStep | eidolon_sdk/biz/smarthome/__init__.py:762-780 | applying the host's delta in sequence gives the host's next state |
| PanelReplication.PanelShowsHostState | eidolon_sdk/biz/smarthome/__init__.py:774-780 | whatever is lost, repeated or reordered, the panel shows the one host state with its (revision, seq) |
| PanelReplication.DeltasNeverGoBack | eidolon_sdk/biz/smarthome/__init__.py:777-779 | deltas alone keep the revision and never lower seq |
| PanelReplication.StepGoesBackIff | eidolon_sdk/biz/smarthome/__init__.py:774-780 | one message moves a panel back exactly when it is a snapshot older than what is shown |
| PanelReplication.RunNeverGoesBackIff | eidolon_sdk/biz/smarthome/__init__.py:732-780 | over a whole run what is shown never goes back exactly when no snapshot is delivered to a panel showing a newer state |
| PanelReplication.CanGoBackIff | eidolon_sdk/biz/smarthome/__init__.py:732-780 | some delivery of what a host published moves a panel back exactly when the host ever changed state |
| PanelReplication.QuietHostConverges | eidolon_sdk/biz/smarthome/__init__.py:732-780 | once the host is quiet, one snapshot of it makes the panel equal to it, and late deltas do not undo that |
| PanelReplication.NewestDeltaIsNoticed | eidolon_sdk/biz/smarthome/__init__.py:777-779 | a panel that is behind and hears the newest delta catches up or asks for a sync |
| Persona.ValidGenomeIff | eidolon_sdk/biz/persona.py:99-202 | a genome is valid when its name is not blank and every value, confidence and the step bound lie from 0 up to 1 |
| PersonaEvolution.ValidatePersonaEvolution | eidolon_sdk/biz/persona.py:680-713 | the checking loop gives the refusal, or none, of the declarative rule |
| PersonaEvolution.AcceptedIffWithin | eidolon_sdk/biz/persona.py:680-713 | a well-formed proposal with a rationale is accepted exactly when the untouchable parts agree, every trait moved at most the bound and the stage at most one step |
| PersonaEvolution.ReachableIff | eidolon_sdk/biz/persona.py:680-713 | n accepted evolutions reach exactly the genomes within n times the bound and min(n, 3) stages; the way there is built step by step inside [0, 1] |
| PersonaEvolution.AllowanceIsProduct | eidolon_sdk/biz/persona.py:704-709 | n single bounds add up to n times the bound |
| Persona.IsSpaceIffListed | eidolon_sdk/biz/persona.py:314 | the characters `str.strip` removes, listed |
| Persona.TrimIff | eidolon_sdk/biz/persona.py:314 | stripping leaves the one part of the text with only white text before and after it and no white at its ends |
| PersonaAuthoring.ApplyPersonaAuthoring | eidolon_sdk/biz/persona.py:289-316 | the in-place payload edits yield a valid genome with each supplied text stored without its outer whitespace, every other supplied value as it is, omitted ones kept, nothing else moved, provenance marked; read back, it is the old form overlaid with the stripped fields |
| PersonaAuthoring.AppliedUnique | eidolon_sdk/biz/persona.py:289-316 | that description fits one genome only |
| PersonaAuthoring.ApplyWhatWasRead | eidolon_sdk/biz/persona.py:289-316 | applying what was read changes only provenance, exactly when every text was trimmed |
| PersonaAuthoring.ApplyTwice | eidolon_sdk/biz/persona.py:289-316 | two applies are one apply of the merge in which the later fields win |
| PersonaAuthoring.BuildStoresDraft | eidolon_sdk/biz/persona.py:477-521 | a draft builds a valid genome: the name and each text but the archetype without outer whitespace, an empty archetype as `companion`, the draft's traits over the template's, and the template's policies |
| PersonaAuthoring.ReadAfterBuildIsDraftIff | eidolon_sdk/biz/persona.py:477-521 | a draft reads back as written exactly when its texts are trimmed, its archetype non-empty and the template traits among its own |
| PersonaAuthoring.ReadBuildIdempotent | eidolon_sdk/biz/persona.py:477-556 | reading a built genome and saving it untouched is a fixed point, trait merge included |
| PersonaAuthoring.UnauthoredDraftIsTemplate | eidolon_sdk/biz/persona.py:336-349 | an unauthored draft builds the template under its name exactly when the template's texts are trimmed |
| PersonaAuthoring.DefaultTextsTrimmed | eidolon_sdk/biz/persona.py:226-236 | and the template's texts are |
| Transcript.ValidateToolTranscript | eidolon_sdk/integrations/llm/openai_messages.py:41-64 | the nested loops over one mutable set compute `CheckFrom`, error kind and index included |
| Transcript.CheckDecidesLanguage | eidolon_sdk/integrations/llm/openai_messages.py:41-64 | accepted exactly when every call and answer is named and each id's events are blocks of one or more declares and one answer |
| Transcript.OutcomeIff | eidolon_sdk/integrations/llm/openai_messages.py:41-64 | the outcome is the only one that describes the transcript: valid; the first message at fault, with an unnamed call or answering nothing open, all before it in order; or exactly the ids left open |
| Inventory.PathsArePositions | contracts/device_foundation/v1/conformance/run.py:99-123 | the enumerated paths are the spellings of the field positions with no opaque ancestor |
| Inventory.SpellingUnique | contracts/device_foundation/v1/conformance/run.py:111-123 | for keys non-empty and free of `.` and `[`, two positions spelled alike are the same |
| Inventory.AcceptedIffPartition | contracts/device_foundation/v1/conformance/run.py:126-169 | accepted exactly when the declared sets partition those spellings and every opaque path is declared |
| Inventory.RefusalIs | contracts/device_foundation/v1/conformance/run.py:146-169 | which refusal a vector meets and the very paths it names |
| Inventory.AcceptedAlikeIff | contracts/device_foundation/v1/conformance/run.py:126-169 | with fixed declarations, an accepted vector admits another exactly when the two spell the same paths |
| Inventory.AcceptedFixesPositions | contracts/device_foundation/v1/conformance/run.py:126-169 | for two vectors whose keys are non-empty and free of `.` and `[`: exactly when they have the same visible positions |
| Inventory.RemovedKeyAcceptedIff | contracts/device_foundation/v1/conformance/run.py:126-169 | any key taken out of any accepted vector: the result passes exactly when every path lost is also spelled by a position that stays |
| Inventory.AddedKeyAcceptedIff | contracts/device_foundation/v1/conformance/run.py:126-169 | any key put into any accepted vector: the result passes exactly when every path it brings is also spelled by a position that was there |
| Inventory.RemovedKeyRefused | contracts/device_foundation/v1/conformance/run.py:126-169 | hence, for a vector whose keys are non-empty and free of `.` and `[`, removing any key outside the opaque subtrees gets it refused |
| Inventory.AddedKeyRefused | contracts/device_foundation/v1/conformance/run.py:126-169 | and so does adding such a key, whatever the value under it |
| Inventory.DottedKeyHides | contracts/device_foundation/v1/conformance/run.py:111-117 | any nested field can be shadowed by a dotted key, which then comes and goes unnoticed |
| LeafMutation.CollectLeafPaths | contracts/device_foundation/v1/conformance/run.py:946-954 | the extending loop computes `LeafPaths` |
| LeafMutation.PathsAreLeaves | contracts/device_foundation/v1/conformance/run.py:946-954 | the listed paths are the spellings of the non-dict positions reached by keys |
| LeafMutation.PathsInOrder | contracts/device_foundation/v1/conformance/run.py:946-954 | the list is in code-point order |
| LeafMutation.WalkAndMutate | contracts/device_foundation/v1/conformance/run.py:957-967 | the walk to the parent, the check and the write compute `MutateLeaf` |
| LeafMutation.SplitsBackIff | contracts/device_foundation/v1/conformance/run.py:946-961 | the listed path of a leaf splits back into its keys exactly when they are free of dots and none is lost, as an empty first key above others is |
| LeafMutation.MutationChangesOneLeaf | contracts/device_foundation/v1/conformance/run.py:957-967 | for every leaf below a dict: at its listed path exactly a string or an int is changed, by a suffix or by one, and everything not on the way to it reads as before, if and only if the path splits back |
| LeafMutation.MutationKeepsLeafPaths | contracts/device_foundation/v1/conformance/run.py:946-967 | whatever the path, a mutated vector lists the leaf paths the original listed |
| JsonRoundTrip.DumpsReadsBack | eidolon_sdk/core/streaming/sse.py:45 | JSON text reads back, by RFC 8259, as the document it was printed from, for every document whose floats have decimal spellings and every proper pair of separators |
| Text.NatTextSpells | eidolon_sdk/core/streaming/sse.py:45 | the decimal text of a number spells it in base ten, without a zero in front |
| JsonText.DumpsPrintable | eidolon_sdk/core/streaming/sse.py:45 | JSON text has no raw control character, whatever its strings contain |
| JsonText.EscapeSize | eidolon_sdk/core/streaming/sse.py:45 | quotes, backslashes and five control characters take two characters, other control characters six |
| SseRoundTrip.FrameRuns | eidolon_sdk/core/streaming/sse.py:16-46 | one frame leaves the reader between events; a comment dispatches nothing exactly when no line of it is a data field |
| SseRoundTrip.FrameDelivers | eidolon_sdk/core/streaming/sse.py:23-46 | one event frame is received as one event with its name, its very data and the id in force |
| SseRoundTrip.StreamReadsBackIff | eidolon_sdk/core/streaming/sse.py:16-46 | the bytes of any frames read back as exactly their events, in order, each with its data and the right id, if and only if no event name has a line break, no comment line is a data field, and no id field in a comment is in force at an event |
| SseRoundTrip.StreamReadsBack | eidolon_sdk/core/streaming/sse.py:16-46 | with one-line comments: if and only if no event name has a line break |
| ClaimPages.ValidPageIff | eidolon_sdk/device_foundation/v1/events.py:161-176 | a page is valid exactly when it is one stream's consecutive positions from after one cursor to the next, within the watermark |
| ClaimPages.PageErrorIs | eidolon_sdk/device_foundation/v1/events.py:161-176 | an invalid page raises the error of the first of the four rules it breaks, each said on its fields |
| ClaimPages.ClaimReader.Receive | eidolon_sdk/device_foundation/v1/events.py:133-176 | the reader's loop appends what lies past its checkpoint and moves the checkpoint |
| ClaimPages.FollowKeepsPrefix | eidolon_sdk/device_foundation/v1/events.py:161-176 | any honest page, re-reads and empty ones included, keeps the held events the log's prefix up to the cursor |
| ClaimPages.ReaderHoldsPrefix | eidolon_sdk/device_foundation/v1/events.py:133-176 | any chain of pages over a growing log leaves exactly the log's prefix, the cursor never past the high watermark |
| ClaimPages.AskingInTurnCatchesUp | eidolon_sdk/device_foundation/v1/events.py:133-176 | a reader that asks each page from where it stands holds the first events of the log, one for each item sent, and the whole log exactly when it was sent that many items |
| ClaimPages.FullPagesReachTheEnd | eidolon_sdk/device_foundation/v1/events.py:133-176 | while no page comes back empty, as many requests as the log has events leave the reader with the whole log |
| HttpRetry.ServiceHttpClient.Request | eidolon_sdk/core/http/client.py:87-158 | for every sequence of network outcomes: the number of calls; the outcome, told by the kind and status of the last attempt; that every earlier attempt was one to retry; the responses closed and the time waited; the code after the loop is not reached |
| HttpRetry.CanRetryIff | eidolon_sdk/core/http/client.py:102-134 | a method may be retried exactly when the policy lists its name in capitals |
| HttpRetry.LastAttemptUnique | eidolon_sdk/core/http/client.py:106-138 | the attempt a request stops at is determined by the policy and the network: no two numbers of calls meet its description |
| HttpRetry.ServiceHttpClient.SleepBeforeRetry | eidolon_sdk/core/http/client.py:161-164 | the wait before a retry |
| HttpRetry.NonRetryableCalledOnce | eidolon_sdk/core/http/client.py:102-134 | a method outside the policy is called once |
| HttpRetry.DiscardedOnce | eidolon_sdk/core/http/client.py:125-133 | exactly the responses before the last attempt are closed, each once, never the one returned |
| HttpRetry.WaitedClosedForm | eidolon_sdk/core/http/client.py:161-164 | the total wait before attempt k is backoff * k * (k - 1) / 2 |
| DeviceRef.ClassifyIff | eidolon_sdk/device_foundation/v1/device_control.py:57-65 | `none` exactly for the held ref itself, `adopt` exactly for the same claimant with a larger (claim_generation, trust_epoch), on the fields |
| DeviceRef.ClassifyOpposes | eidolon_sdk/device_foundation/v1/device_control.py:57-65 | of two different refs of one claimant exactly one is adopted for the other, which is refused; refs of different claimants refuse each other |
| DeviceRef.CorrectStep | eidolon_sdk/device_foundation/v1/device_control.py:33-68 | one answer keeps the claimant, never goes back, and lowers trust_epoch only under a higher claim_generation |
| DeviceRef.CorrectAllEndsAtNewest | eidolon_sdk/device_foundation/v1/device_control.py:33-68 | any run of answers ends at the lexicographic maximum over the held ref and the answers for its claimant |
| DeviceRef.CorrectionConverges | eidolon_sdk/device_foundation/v1/device_control.py:33-68 | order and repetition of the answers do not matter |

## Left out

- ValidateCapabilityArguments: a `pattern` that is not a valid regular expression, which makes `re.search` raise; the search is a total parameter.
- AdmittedNeverRaises: one direction only. That every `enum` is a list is needed only at nodes some value can reach; `ValidateDecides` gives the exact outcome per value.
- LeafMutation.WalkAndMutate: the write into the deep copy is a new value with one part replaced, not an update through a reference.
- SafeOwnerKey: owner ids with lone surrogates, which `str.encode` refuses; a Dafny string has none.
- SessionKeyFor: a `date` argument is taken as its `%Y%m%d` text, whose width before the year 1000 depends on the platform.
- CanRetry: `str.upper` outside ASCII.
- EvolutionRefusal: the name of the offending trait in the error text, and the order in which a dict yields it.
- Certificate parsing, signature and digest computation, RFC 8785 canonical JSON: predicates or absent.
- Field-level pydantic constraints (lengths, patterns, literals, strict mode), except where an invariant needs them.
- Byte limits of panel snapshots and voice results, and the per-type state keys of panel devices.
- The manifest's check for duplicate capability names and the capability name pattern: easy members.
- Network, database, messaging and file code; modules that only hold records or one-branch checks; finite tables.
