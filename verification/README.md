# Context console: a verified model

This project models the parts of the context console service whose correctness is not visible in
one function: the hand-written JSON scanners, the bounded index that fences owner-issued references,
the publication frame, the durable journal, owner-invocation admission, control receipts and
canonical values. Everything the service cannot see into (clocks, the network, another owner, another
writer of a table, a failing database statement) is free to answer anything.

| part | files |
|---|---|
| Context reader's JSON parser | `JsonLayout`, `JsonDialect` (the language), `JsonScan` (what is read), `JsonParser` (the parser), `JsonExact`, `JsonSpellings`, `JsonRoundTrip`, `JsonStrings`, `JsonErrors`, `Utf8` |
| Management API's bounds scan | `JsonGuardScan`, `JsonGuard`, `JsonGuardExact`, `JsonAgreement` |
| Owner wire's shape scan | `JsonShape`, `JsonShapeExact`, `JsonShapeSplit` |
| The limits of all three | `JsonBounds` |
| Reference index and fence | `BoundedCache`, `ReferenceModel`, `ReferenceState` (the index as a value), `ReferenceTranscript` (what was asked), `ReferenceIssued`, `ReferenceContents` (what stands in the index), `ReferenceFence` (what may be sent), `ReferenceIndex`, `ReferenceFacade` (the objects) |
| Publication frame | `PublicationFrame`, `FrameLayout`, `OwnerWire`, `Identifiers` |
| Durable journal, live plane | `DurableTables`, `DurableStore` |
| Owner admission | `SubjectGrants`, `OwnerAdmission`, `OwnerDecision` (when it succeeds), `OwnerIngress` |
| Control receipts | `ControlReceipts` |
| Canonical values | `CanonicalValue`, `CanonicalPaths`, `Sorting` |

`dafny verify dfyconfig.toml` checks all of it.

The imperative code keeps its form: a class per object whose methods advance its fields, proved against
functions of the bytes, rows or answers it stands on, and those functions are then characterised without
reference to how they compute. What the outside answers is an input: the owner's replies and the grant
check's by their place in the transcript, the clock by its readings, other writers of the grant table by
their actions. A transaction is a copy of the tables that replaces them at its commit.

The facade's index is at every moment a function of the transcript of what was asked and sent, and so are
the references issued, the latest listings and the grants held; the fence is then a property of transcripts.
Three uses of a listing (at a reset, for a caller, to look something up) share one method per kind, told
apart by what a failed one leaves.

Findings, each stated exactly in the model:

- A completeness flag does not protect every listed item. The item index is keyed by id and version,
  so a later entry, or a cached draft's reference, with the same id and version and another digest
  displaces a listed one, and the listed one is then denied without asking the owner
  (`ReferenceState.JudgedByLatest`, `ReferenceState.ListedItemDenied`, `ReferenceState.ListedItemDisplaced`).
  For ids, and for an item's id and version, the flag is sound (`ReferenceTranscript.TranscriptSound`).
- Objective authority is decided on the first restored configuration alone, so a patch that restores two,
  the second with another objective, is forwarded as an ordinary edit
  (`ReferenceFence.OrdinaryChange`, `ReferenceFence.SecondRestoreUnauthorized`). The repository's own reducer
  refuses a restore beside other operations (crates/context-service/src/control/state/drafting.rs:108-118).
- A journal is bounded before encryption when it is stored and after it when it is loaded, so one within
  it by fewer than 40 bytes is stored and never loads again (`DurableTables.LargeJournalLost`); neither does a
  plane whose controller epoch is the largest signed or unsigned 64-bit value, for a controller
  (`DurableTables.PersistedLoads`).
- A plane committed just before its publication was lost decides the events under its sequence numbers
  for good: a plane with another event under one of them is refused as corrupt (`DurableStores.LostEventsDecide`).
- A memory binding whose policy version exceeds a signed 64-bit column is refused when it is new, but
  taken as the same when a binding with the largest such version is stored
  (`DurableTables.BoundReadsBack`, `DurableTables.OversizedBindingTaken`).
- The bounds scan skips form feeds, which RFC 8259 (section 2) does not allow between tokens and the
  context reader refuses (`JsonAgreement.FormFeedSkipped`).
- The live plane of the demonstration server starts as a recovery of the stored one, in the next controller
  epoch, so the two agree only from the first committed mutation on; `DurableStores.Run` keeps that first
  stretch as a case of its own.

## Model

| member | source | states |
|---|---|---|
| JsonParser.Parse | crates/context-reader/src/json/parser.rs:8-22 | returns exactly what the reference functions of the text say; it succeeds iff the text is a tree of the dialect between blanks, within 32 nested containers and 512 members and elements, and then returns that tree's meaning; it ends on every input |
| JsonExact.ParsedExactly | crates/context-reader/src/json/parser.rs:8-228 | acceptance is membership in the dialect for every byte string, and any dialect tree a text can be read as gives the result |
| JsonExact.DocumentParses | crates/context-reader/src/json/parser.rs:8-228 | completeness: every document of the dialect parses to its meaning |
| JsonExact.ParsedIsDocument | crates/context-reader/src/json/parser.rs:8-228 | soundness: whatever parses is a document of the dialect, and a tree for it is rebuilt |
| JsonExact.ValueComplete | crates/context-reader/src/json/parser.rs:32-45 | after any blanks, a tree in front of what may follow a value is read to its meaning, leaving the rest and counting exactly its items |
| JsonExact.ValueSound | crates/context-reader/src/json/parser.rs:32-45 | a value read off the front of any bytes is a tree of the dialect within the remaining depth and item bounds, and the bytes are that tree then the rest |
| JsonExact.ElementsComplete | crates/context-reader/src/json/parser.rs:141-153 | the array loop reads every element in order and stops at the closing bracket |
| JsonExact.MembersComplete | crates/context-reader/src/json/parser.rs:165-186 | the object loop reads every member in order when no decoded key repeats one before it |
| JsonExact.MembersSound | crates/context-reader/src/json/parser.rs:165-186 | an object that is read has pairwise different decoded keys, and its text is exactly those members |
| JsonExact.BodyComplete | crates/context-reader/src/json/parser.rs:60-76 | a string body whose decoding is UTF-8 is read to that decoding, up to its closing quote |
| JsonExact.BodySound | crates/context-reader/src/json/parser.rs:60-76 | a string that is read is a raw body with no bare quote or control byte, its escapes all valid, and its decoding UTF-8 |
| JsonExact.NumberComplete | crates/context-reader/src/json/parser.rs:112-130 | a digit run below 2^64 followed by what may end a token is read to its value, leading zeros allowed |
| JsonParser.Parser.ReadValue | crates/context-reader/src/json/parser.rs:32-45 | computes the reference outcome from the bytes not read yet, restoring the depth counter |
| JsonParser.Parser.ReadString | crates/context-reader/src/json/parser.rs:60-76 | computes the reference outcome of a string: accumulated bytes, first error, or the closing quote |
| JsonParser.Parser.ReadEscape | crates/context-reader/src/json/parser.rs:78-97 | appends what the escape at this place stands for, or refuses it |
| JsonParser.Parser.HexQuad | crates/context-reader/src/json/parser.rs:99-110 | four digits naming a Unicode scalar value are returned; any other four bytes fail or return no scalar value, although a byte that is no digit counts as the largest 32-bit value |
| JsonParser.HexValue | crates/context-reader/src/json/parser.rs:230-237 | a digit's value, or the 32-bit sentinel |
| JsonParser.HexPrefixBound | crates/context-reader/src/json/parser.rs:99-110 | up to three digits read so far stay below 16, 256 and 4096, so only the sentinel can overflow the checked arithmetic |
| JsonParser.Parser.ReadNumber | crates/context-reader/src/json/parser.rs:112-130 | computes the reference outcome of a number: empty runs, fractions, exponents, signs and values over 64 bits are refused |
| JsonParser.Parser.ReadArray | crates/context-reader/src/json/parser.rs:132-154 | computes the reference outcome of an array, first error included |
| JsonParser.Parser.ReadObject | crates/context-reader/src/json/parser.rs:156-187 | computes the reference outcome of an object, first error included |
| JsonParser.Parser.ReadLiteral | crates/context-reader/src/json/parser.rs:47-58 | reads exactly the expected bytes or refuses |
| JsonParser.Parser.Enter | crates/context-reader/src/json/parser.rs:189-196 | one container deeper, or too deep past 32 |
| JsonParser.Parser.Leave | crates/context-reader/src/json/parser.rs:198-200 | one container less, never below zero |
| JsonParser.Parser.Item | crates/context-reader/src/json/parser.rs:202-209 | one item more, or too many past 512 |
| JsonParser.Parser.Take | crates/context-reader/src/json/parser.rs:211-218 | consumes one byte if and only if it is the expected one |
| JsonParser.Parser.Whitespace | crates/context-reader/src/json/parser.rs:220-227 | drops exactly the leading blanks |
| JsonSpellings.EscapeExactly | crates/context-reader/src/json/parser.rs:78-97 | an escape is read iff it is one of the eight of two characters RFC 8259 (section 7) lists, standing for its one byte, or u and four digits of either case naming a scalar value, standing for its UTF-8 |
| JsonSpellings.SpellingsSpell | crates/context-reader/src/json/parser.rs:60-97 | three ways to write any text read back as it: as few escapes as possible, two-character escapes wherever there is one, and four digits, in any mix of cases, for every character below U+10000 |
| JsonRoundTrip.RoundTrip | crates/context-reader/src/json/parser.rs:8-228 | every value within the bounds, with UTF-8 strings and unique keys, is what parsing its compact text returns, whatever blanks surround it and in whichever of these ways its strings are written |
| JsonRoundTrip.ResultsExactly | crates/context-reader/src/json/parser.rs:8-228 | the values some text parses to are exactly those values |
| JsonRoundTrip.MeaningWellFormed | crates/context-reader/src/json/parser.rs:32-187 | what a dialect tree means is such a value, of the tree's own depth and item count |
| JsonStrings.DecodedValidExactly | crates/context-reader/src/json/parser.rs:60-97 | a decoded string body is UTF-8 iff every raw run between its escapes is, so an escape never completes a broken sequence |
| JsonStrings.RunsAfter | crates/context-reader/src/json/parser.rs:66-73 | the same for a body decoded after bytes already accumulated |
| Utf8.ValidExactly | crates/context-reader/src/json/parser.rs:68-71 | a byte string counts as UTF-8 iff it is a concatenation of encoded scalar values |
| JsonBounds.ReaderBounds | crates/context-reader/src/json/parser.rs:5-6 | it can return 32 nested lists and no more, 512 elements and no more, and every number below 2^64 and no other |
| JsonErrors.BoundsRefused | crates/context-reader/src/json/parser.rs:189-209 | more than 32 nested arrays are refused as too deep, more than 512 elements as too many items |
| JsonErrors.KeyRefused | crates/context-reader/src/json/parser.rs:165-172 | a key read before is refused as a duplicate, however it is spelled and whatever follows it |
| JsonErrors.TrailingRefused | crates/context-reader/src/json/parser.rs:15-22 | anything but blanks after a whole document is refused as trailing bytes |
| JsonErrors.BlanksExactly | crates/context-reader/src/json/parser.rs:220-227 | a byte in front of any text changes nothing iff it is a space, line feed, carriage return or tab |
| Utf8.DecodeEncode | crates/context-reader/src/json/parser.rs:88-93 | the bytes an escape appends decode to its code point |
| JsonGuard.ValidateShape | crates/context-service/src/demo/mod.rs:132-146 | computes the reference scan of the whole text, and ends on every byte string |
| JsonGuardExact.ScanExactly | crates/context-service/src/demo/mod.rs:132-300 | a text passes iff it is a tree between white space whose strings decode and that keeps the bounds: no decoded key twice in an object, no array over 256 elements, nothing inside more than 32 containers |
| JsonGuardExact.ScanVerdict | crates/context-service/src/demo/mod.rs:132-300 | on any text that is such a tree, in or out of bounds, the verdict is whether it keeps them |
| JsonGuardExact.ScanSplit | crates/context-service/src/demo/mod.rs:132-300 | whatever passes is such a tree, and one is rebuilt |
| JsonGuardExact.ValueVerdict | crates/context-service/src/demo/mod.rs:154-175 | the verdict on one value inside a given number of containers, leaving exactly what follows it |
| JsonGuardExact.ElementsVerdict | crates/context-service/src/demo/mod.rs:222-240 | the array loop passes iff every element does and their number stays within 256 |
| JsonGuardExact.MembersVerdict | crates/context-service/src/demo/mod.rs:184-211 | the object loop passes iff every value does and no key repeats one read before |
| JsonLayout.FreshKeys | crates/context-service/src/demo/mod.rs:180-193 | reading keys one by one into a set finds a repetition iff two of them are equal |
| JsonGuardExact.CloseFinds | crates/context-service/src/demo/mod.rs:265-276 | the toggling escape flag stops at the first unescaped quote |
| JsonGuard.Guard.ScanValue | crates/context-service/src/demo/mod.rs:154-175 | computes the reference outcome of a value, first refusal included |
| JsonGuard.Guard.ScanObject | crates/context-service/src/demo/mod.rs:177-212 | computes the reference outcome of an object |
| JsonGuard.Guard.ScanArray | crates/context-service/src/demo/mod.rs:214-241 | computes the reference outcome of an array |
| JsonGuard.Guard.ScanString | crates/context-service/src/demo/mod.rs:256-280 | computes the reference outcome of a string: the quoted slice is what is decoded |
| JsonGuard.Guard.ScanPrimitive | crates/context-service/src/demo/mod.rs:243-254 | computes the reference outcome of any other token |
| JsonBounds.GuardBounds | crates/context-service/src/demo/mod.rs:154-241 | 33 nested arrays pass and no more, 256 elements in an array and no more |
| JsonErrors.SpacesSkipped | crates/context-service/src/demo/mod.rs:282-290 | a space, line feed, carriage return, tab or form feed in front of any text changes nothing |
| JsonErrors.OthersRefused | crates/context-service/src/demo/mod.rs:154-175 | an empty array behind any other byte is refused |
| JsonAgreement.FormFeedSkipped | crates/context-service/src/demo/mod.rs:282-290 | a form feed before any text changes nothing for this scan, and makes the context reader refuse it |
| JsonAgreement.ParsedPassesGuard | crates/context-service/src/demo/mod.rs:132-300 | a text the context reader parses passes this scan iff none of its arrays has over 256 elements |
| JsonShape.ValidateShape | crates/context-service/src/harness_context_owner_wire/validation.rs:111-137 | over the byte ceiling it refuses; otherwise its verdict is the scan's without any node budget, so the budget never causes a rejection; it visits at most one node more than the text has bytes |
| JsonShape.ValueAt | crates/context-service/src/harness_context_owner_wire/validation.rs:146-231 | a value's scan spends no more nodes than it consumes bytes, and at most one more when it stops |
| JsonShape.MembersAt | crates/context-service/src/harness_context_owner_wire/validation.rs:243-256 | the same for an object's entries, malformed text included |
| JsonShape.ShapeVisitor.Enter | crates/context-service/src/harness_context_owner_wire/validation.rs:146-156 | counts a node and stops past the budget or below depth 32 |
| JsonShape.ShapeVisitor.Value | crates/context-service/src/harness_context_owner_wire/validation.rs:171-231 | with a budget that covers the bytes left, does what the scan without one does |
| JsonShape.ShapeVisitor.Elements | crates/context-service/src/harness_context_owner_wire/validation.rs:233-242 | the same for a sequence |
| JsonShape.ShapeVisitor.Members | crates/context-service/src/harness_context_owner_wire/validation.rs:244-256 | the same for a map, whose repeated key is noted as a decoding failure |
| JsonShapeExact.ScannedExactly | crates/context-service/src/harness_context_owner_wire/validation.rs:111-256 | on a JSON text whose tokens the deserializer reads, the scan passes iff no value is nested deeper than 32 levels and no object repeats a key; it is never called malformed, and a pass visits each value exactly once |
| JsonShapeExact.ValueVerdict | crates/context-service/src/harness_context_owner_wire/validation.rs:171-256 | the same for one value at any depth, leaving exactly what follows it |
| JsonShapeSplit.PassesExactly | crates/context-service/src/harness_context_owner_wire/validation.rs:111-256 | for a deserializer whose tokens are tokens wherever they stand, a byte string passes the scan iff it is one tree between blanks, nested 32 levels at most and without a repeated key |
| JsonShapeSplit.ScanSplit | crates/context-service/src/harness_context_owner_wire/validation.rs:111-256 | whatever passes is such a text, and a tree for it is rebuilt |
| JsonBounds.ShapeBounds | crates/context-service/src/harness_context_owner_wire/validation.rs:146-156 | 32 nested arrays pass and no more |
| BoundedCache.BoundedSetInsert | crates/context-service/src/harness_facade.rs:1175-1196 | the queue becomes the old one with the value moved to the back and cut to the capacity; the keys stay the queue's; true iff something was evicted |
| BoundedCache.BoundedMapInsert | crates/context-service/src/harness_facade.rs:1198-1223 | the same for a map, whose other retained values are untouched |
| BoundedCache.ReplayedRefines | crates/context-service/src/harness_facade.rs:1175-1223 | after any run of insertions the queue is the last `capacity` distinct keys of the history by latest insertion |
| BoundedCache.InsertAll | crates/context-service/src/harness_facade.rs:1198-1223 | any run of insertions into an empty map leaves the last `capacity` distinct keys of its history, each with its latest value, and reports exactly the insertions that cost an entry |
| BoundedCache.InsertRefines | crates/context-service/src/harness_facade.rs:1198-1223 | an insertion keeps a map standing for its history: that queue, exactly its keys, each with its latest value |
| BoundedCache.RecencyOrder | crates/context-service/src/harness_facade.rs:1175-1223 | the reference order holds each key of the history once, by latest insertion |
| ReferenceIndexes.ReferenceIndex.StoreItems | crates/context-service/src/harness_facade.rs:1684-1693 | the items become the listed ones and then the others, inserted in order into an empty cache whose flag any eviction clears; nothing else of the index moves |
| ReferenceIndexes.ReferenceIndex.StoreRevisions | crates/context-service/src/harness_facade.rs:1712-1718 | the same for revisions, held in two queues |
| ReferenceIndexes.ReferenceIndex.StoreDrafts | crates/context-service/src/harness_facade.rs:1736-1743 | the same for drafts, each after every item reference it carries, which are cached among the items already there |
| ReferenceIndexes.ReferenceIndex.StorePreviews | crates/context-service/src/harness_facade.rs:1778-1783 | the same for preview ids |
| ReferenceIndexes.ReferenceIndex.StoreReceipts | crates/context-service/src/harness_facade.rs:1879-1886 | the same for receipt ids |
| ReferenceIndexes.ReferenceIndex.CacheItem | crates/context-service/src/harness_facade.rs:2051-2055 | one item more among those held, and the flag given up when something was evicted |
| ReferenceIndexes.ReferenceIndex.CacheRevision | crates/context-service/src/harness_facade.rs:2068-2072 | the same for a revision |
| ReferenceIndexes.ReferenceIndex.CacheRevisionId | crates/context-service/src/harness_facade.rs:2057-2066 | the same for a revision known by its id alone |
| ReferenceIndexes.ReferenceIndex.CacheDraft | crates/context-service/src/harness_facade.rs:2074-2078 | the same for a draft |
| ReferenceIndexes.ReferenceIndex.CachePreview | crates/context-service/src/harness_facade.rs:2106-2110 | the same for a preview id |
| ReferenceIndexes.ReferenceIndex.CacheReceipt | crates/context-service/src/harness_facade.rs:2112-2116 | the same for a receipt id |
| ReferenceIndexes.ReferenceIndex.CacheDraftReferences | crates/context-service/src/harness_facade.rs:2080-2089 | caches every reference a draft carries, in the draft's order |
| ReferenceIndexes.ReferenceIndex.CachedDraftReferences | crates/context-service/src/harness_facade.rs:2091-2104 | the references of the cached drafts, draft by draft in the order of their ids |
| ReferenceState.AddItemsSound | crates/context-service/src/harness_facade.rs:1110-1118 | items inserted in any number keep: only issued references, the latest under each id and version, and while the flag is set every id and version filed |
| ReferenceState.AddItemsFit | crates/context-service/src/harness_facade.rs:1684-1693 | no listing that fits clears the flag |
| ReferenceState.AddDraftsSound | crates/context-service/src/harness_facade.rs:1736-1743 | a listing of drafts keeps the same for items and drafts together |
| ReferenceState.JudgedByLatest | crates/context-service/src/harness_facade.rs:2537-2551 | a verdict reached without asking is exactly whether the reference is the latest one filed under its id and version |
| ReferenceState.ListedItemDenied | crates/context-service/src/harness_facade.rs:1684-1693 | a listing of two digests under one id and version leaves the earlier one denied unasked |
| ReferenceState.ListedItemDisplaced | crates/context-service/src/harness_facade.rs:2080-2089 | a cached draft that carries a rival of a listed item leaves the listed one no longer known, and denied unasked while the flag is set |
| ReferenceTranscript.TranscriptSound | crates/context-service/src/harness_facade.rs:1250-2116 | after anything asked, reset and forwarded in any order, against any owner, every cache holds only references the owner returned in scope since the last reset; while its flag is set it holds all of the latest accepted listing and everything cached since |
| ReferenceFacades.Run | crates/context-service/src/harness_facade.rs:1250-2116 | for any owner, any grant check and any requests: every mutation sent was in scope, named only revisions, drafts, previews and exact items the owner had returned since the last reset, held every grant it requires from its own request, was offered by the owner, and well formed, and as a patch was for the held draft's version, removed only that draft's notes and declared the objective change the index shows; what was sent answers the requests in order, at most one each |
| ReferenceFence.SentGranted | crates/context-service/src/harness_facade.rs:1889-2049 | in every transcript whose mutations were allowed, and with no table: a draft, patch or preview had the edit grant, an objective change the objective grant, an applicable preview and a pause the pause grant, a commit the commit grant and a resume the resume grant, each allowed by the grant check since its own request began, and each had its own operation offered by the owner |
| ReferenceFence.GrantedExactly | crates/context-service/src/harness_facade.rs:2118-2204 | a permission counts as granted iff the grant check allowed it since the request at hand began |
| ReferenceIssued.IssuedExactly | crates/context-service/src/harness_facade.rs:2404-2665 | an id counts as issued iff a reply of the owner since the last reset named it, as that kind and in scope |
| ReferenceIssued.ItemIssuedExactly | crates/context-service/src/harness_facade.rs:2404-2706 | an exact item reference counts as issued iff such a reply listed it or a draft in it carries it |
| ReferenceContents.TranscriptClean | crates/context-service/src/harness_facade.rs:2769-3055 | after anything asked of any owner, every entry of the index is in scope and within its limits: identifiers and digests well formed, versions positive and safe, at most 64 selected items and 16 notes a draft and none twice |
| ReferenceContents.TranscriptSmall | crates/context-service/src/harness_facade.rs:1110-1223 | however much the owner lists, the index never holds more than 80 items, nor more than 64 ids or entities of another kind |
| ReferenceContents.ListingsExactly | crates/context-service/src/harness_facade.rs:2769-3055 | a listing of any kind is accepted iff it has at most 64 entries and each of them is accepted |
| ReferenceContents.ListingsComplete | crates/context-service/src/harness_facade.rs:1661-1887 | an accepted listing is held whole, with its flag set |
| ReferenceContents.CarriedStays | crates/context-service/src/harness_facade.rs:2091-2104 | whatever is listed or looked up after it was cached, every item a held draft carries stays filed, and its id and version held while the items' flag is set |
| ReferenceFacades.OneAnswered | crates/context-service/src/harness_facade.rs:2553-2665 | how each reply about one entity is answered: foreign iff it was looked up and not found or is another one, rejected iff its checks fail, the owner's own error otherwise |
| ReferenceFacades.Facade.RefreshIndex | crates/context-service/src/harness_facade.rs:2404-2504 | forgets the index, then asks for one listing of each kind the owner supports, in that order, and for nothing else |
| ReferenceFacades.Facade.TakeItems | crates/context-service/src/harness_facade.rs:1661-1695 | an accepted listing replaces the items; a rejected one clears them for a caller, and drops only the flag at a reset |
| ReferenceFacades.Facade.TakeDraft | crates/context-service/src/harness_facade.rs:1746-1760 | an accepted draft is cached after its references and is the answer; any other reply changes nothing |
| ReferenceFacades.Facade.EnsureKnownId | crates/context-service/src/harness_facade.rs:2506-2535 | an id passes iff it is well formed and held afterwards, and then the owner issued it; a held one passes unasked; an unasked denial never hits the latest accepted listing or anything cached since |
| ReferenceFacades.Facade.EnsureItem | crates/context-service/src/harness_facade.rs:2537-2551 | an exact reference passes iff it is valid and held afterwards, and then it was issued and is the latest under its id and version; a denial as foreign means it is not the latest; where its key is held or the flag is set, nothing is asked and it passes iff it is the latest |
| ReferenceFacades.Facade.RevalidateReference | crates/context-service/src/harness_facade.rs:2553-2665 | passes only an id the owner's answer made known, and denies as foreign only after asking |
| ReferenceFacades.Facade.RevalidateRevision | crates/context-service/src/harness_facade.rs:2555-2597 | the same, falling back to the whole listing for an owner without the lookup |
| ReferenceFacades.Facade.RevalidateItem | crates/context-service/src/harness_facade.rs:2667-2706 | an item passes iff it is held afterwards, found in the listing or in a cached draft; a foreign one was in neither |
| ReferenceFacades.Facade.EnsureCurrentDraftVersion | crates/context-service/src/harness_facade.rs:2317-2332 | passes only if the cached draft has the expected version; stale only if it has another |
| ReferenceFacades.Facade.ValidatePatch | crates/context-service/src/harness_facade.rs:2214-2280 | passes only a well-formed patch in scope all of whose references were issued, for the held draft's version, whose removed notes that draft carries; passes unasked when all it names is held |
| ReferenceFacades.Facade.ValidateOperation | crates/context-service/src/harness_facade.rs:2231-2277 | one operation of it: a well-formed note or objective text, exact items, the restored revision, and a removed note that is a note of the held draft |
| ReferenceFacades.Facade.PatchRequiresObjective | crates/context-service/src/harness_facade.rs:2282-2315 | true iff the patch sets the objective, or the first configuration it restores has another objective than the held draft; it fails when either is not held |
| ReferenceFacades.Facade.ValidateCommand | crates/context-service/src/harness_facade.rs:2334-2362 | passes only a well-formed command of the kind, in scope, whose revision and previews were issued; passes unasked when they are held |
| ReferenceFacades.Facade.CreateDraft | crates/context-service/src/harness_facade.rs:1889-1910 | forwards nothing, or exactly this request once; answers with the owner's reply to it; only with the edit grant; forwards it when the grant, the revision and the operation are at hand; a returned draft is held and its references filed |
| ReferenceFacades.Facade.EditDraft | crates/context-service/src/harness_facade.rs:1913-1944 | the same for exactly this patch; one that sets the objective, or whose first restored configuration has another objective than the held draft, was granted that too; it is sent when everything it names is held, granted and offered |
| ReferenceFacades.Facade.RequestPreview | crates/context-service/src/harness_facade.rs:1950-1986 | the same for exactly this preview, whose id is then known; an applicable one also had the pause grant |
| ReferenceFacades.Facade.RunCommand | crates/context-service/src/harness_facade.rs:1988-2049 | the same for exactly this command: a pause with the pause grant, a commit with the commit grant, a resume with the resume grant; the receipt and the revision it names are then known |
| ReferenceFacades.Facade.ListItems | crates/context-service/src/harness_facade.rs:1661-1695 | answers with the grant's, the capabilities' or the owner's verdict; an accepted listing, followed by the cached drafts' references, replaces the items; a rejected one clears them; a failed one leaves the index as it was |
| ReferenceFacades.Facade.ListDrafts | crates/context-service/src/harness_facade.rs:1721-1744 | the same for drafts, whose references join the items |
| ReferenceFacades.Facade.RecoverReceipt | crates/context-service/src/harness_facade.rs:1830-1855 | the answer is a function of the grant, the key's form, what the owner offers and its reply, of no index; a recovered receipt and the revision it names are then known |
| ReferenceFacades.Facade.RefreshCapabilities | crates/context-service/src/harness_facade.rs:1567-1573 | asks for the capabilities when granted, sends nothing, and answers with the owner's error if they failed |
| ReferenceFence.OrdinaryChange | crates/context-service/src/harness_facade.rs:2282-2315 | a patch that passes as ordinary changes the draft's objective after all iff the configurations it restores differ in objective |
| ReferenceFence.SecondRestoreUnauthorized | crates/context-service/src/harness_facade.rs:2282-2315 | such a patch: the first restored configuration keeps the objective, the second does not, and only the edit grant is required |
| ReferenceFence.FenceStays | crates/context-service/src/harness_facade.rs:2214-2362 | a mutation checked against what was issued stays inside the fence however much is asked after |
| Identifiers.IdExactly | crates/context-service/src/harness_facade.rs:3197-3203 | an identifier is a letter or digit and up to 127 more of those and of dots, underscores, colons and hyphens |
| Identifiers.DigestExactly | crates/context-service/src/harness_facade.rs:3231-3236 | a digest is 64 digits, with letters from a to f in lower case |
| PublicationFrame.FrameDecodes | crates/context-service/src/harness_context_owner_wire/publication.rs:60-87 | the decoder recovers every valid request from its frame, digests included |
| PublicationFrame.FrameEncodes | crates/context-service/src/harness_context_owner_wire/publication.rs:60-87 | a frame that decodes is the frame of what it decodes to |
| PublicationFrame.FramesDiffer | crates/context-service/src/harness_context_owner_wire/publication.rs:60-87 | no valid request's frame starts another's: equal frames mean requests equal in every field |
| FrameLayout.FrameIs | crates/context-service/src/harness_context_owner_wire/publication.rs:60-87 | the frame is, byte for byte, the domain and the twenty-two fields in the source's order, spelled out |
| FrameLayout.IntBytes | crates/context-service/src/harness_context_owner_wire/publication.rs:255-257 | the eight bytes of an integer, the most significant first |
| FrameLayout.PackedAt | crates/context-service/src/harness_context_owner_wire/publication.rs:259-268 | each byte of a digest from its two digits, the more significant first |
| FrameLayout.RequestFields | crates/context-service/src/harness_context_owner_wire/publication.rs:38-58 | a request passes its checks iff each of its fields, and of its boundary's, is in order |
| PublicationFrame.RequestFrame | crates/context-service/src/harness_context_owner_wire/publication.rs:62-86 | a request passes its checks iff it is valid, and the buffer then holds exactly its frame |
| PublicationFrame.FrameWriter.AppendText | crates/context-service/src/harness_context_owner_wire/publication.rs:247-253 | appends the eight-byte big-endian length and the text, unless the length does not fit |
| PublicationFrame.FrameWriter.AppendU64 | crates/context-service/src/harness_context_owner_wire/publication.rs:255-257 | appends eight big-endian bytes |
| PublicationFrame.FrameWriter.AppendDigest | crates/context-service/src/harness_context_owner_wire/publication.rs:259-268 | appends the 32 bytes the 64 lower-case digits name, and refuses any other text |
| PublicationFrame.PackedRoundTrip | crates/context-service/src/harness_context_owner_wire/publication.rs:259-268 | a lower-case digest is recovered from its raw bytes |
| PublicationFrame.PiecesDecode | crates/context-service/src/harness_context_owner_wire/publication.rs:66-85 | fields read back in their order from any concatenation of their encodings |
| DurableStores.DurableStore.Persist | crates/context-service/src/control/durable.rs:68-211 | at every failpoint and every failing statement the tables are as before or hold the whole persist; success means they hold it; failure after it only at the failpoint past the commit; any other failure is the database's, the failpoint's, the argument check's or the one the events and binding call for; a failpoint is cleared when hit; while the database works and none is set, it succeeds whenever the arguments and events allow |
| DurableTables.PersistedHolds | crates/context-service/src/control/durable.rs:68-211 | a committed persist holds its plane, every event of it under its own sequence number and digest, and its binding; no outbox row, binding or other run's journal changes or disappears |
| DurableStores.DurableStore.CommittedHolds | crates/context-service/src/control/durable.rs:203-211 | so does the store that committed it, with every event new to its outbox whole and unpublished |
| DurableTables.EventsWritten | crates/context-service/src/control/durable_schema.rs:83-115 | every event new to the outbox, the first of its sequence number, stands there with its own bytes, their digest and unpublished; rows whose digest is their bytes' stay so |
| DurableTables.PersistedWrites | crates/context-service/src/control/durable.rs:68-211 | so after a whole persist |
| DurableTables.PersistedColumns | crates/context-service/src/control/durable.rs:98-142 | each journal column says what the plane says: flags as one or zero, numbers in the same 64 bits, signed |
| DurableTables.PersistedLoads | crates/context-service/src/control/durable.rs:260-342 | a plane just persisted loads iff its envelope fits the bound its journal was held to, it is intact and, for a controller, its epoch is neither the largest signed nor the largest unsigned value; it comes back as it was, in the next epoch for a controller; otherwise the error is this one |
| DurableTables.LargeJournalLost | crates/context-service/src/control/durable.rs:84-92 | a journal within the bound by fewer than 40 bytes is stored and can never be loaded |
| DurableStores.DurableStore.Load | crates/context-service/src/control/durable.rs:260-342 | answers as the reference load does, or with the database's failure, and changes nothing |
| DurableStores.DurableStore.InsertOutbox | crates/context-service/src/control/durable_schema.rs:78-117 | the loop takes or refuses the events as the reference function does, unless a statement fails |
| DurableTables.EventsTaken | crates/context-service/src/control/durable_schema.rs:83-115 | events are taken iff each fits and none shares a sequence number with a row or another event of a different digest |
| DurableTables.EventsKept | crates/context-service/src/control/durable_schema.rs:83-115 | taking events changes no row, adds rows only for them, and leaves each of them in the outbox |
| DurableStores.LostEventsDecide | crates/context-service/src/control/durable_schema.rs:83-115 | once a plane is committed, published or not, a plane with another event under one of its sequence numbers is refused at every later state of the store |
| DurableStores.DurableStore.InsertBinding | crates/context-service/src/control/durable.rs:143-195 | a binding is written once, found the same, or refused |
| DurableTables.BoundReadsBack | crates/context-service/src/control/durable.rs:143-195 | a binding the store takes reads back as itself iff its policy version fits a signed 64-bit column |
| DurableTables.OversizedBindingTaken | crates/context-service/src/control/durable.rs:163-195 | a larger version is taken when the largest one is stored, and reads back as that one |
| DurableStores.DurableStore.BindingReadsBack | crates/context-service/src/control/durable.rs:143-242 | the same for a binding the store has committed |
| DurableStores.DurableStore.ReadBinding | crates/context-service/src/control/durable.rs:213-242 | reads the stored row and changes nothing |
| DurableStores.DemoState.MutateControl | crates/context-service/src/demo/state.rs:148-159 | publishes exactly the candidate, only once persisted; the store changes only to hold the candidate, and without publishing only at the failpoint past the commit; a candidate whose events disagree with the outbox is neither stored nor published; while the database works and no failpoint is set, it publishes iff the mutation makes a storable plane whose events agree |
| DurableStores.Run | crates/context-service/src/demo/state.rs:148-159 | after any run of mutations under any failpoints and failures, the store holds the live plane, or what one of the run's mutations makes of it, or nothing was committed at all; no outbox row or binding is lost |
| OwnerIngress.Ingress.Admit | crates/context-service/src/authenticated_ingress/owner_invocation.rs:71-191 | succeeds iff the request is admittable: all nine clock readings exist, the principal and the credential answered are the ones the invocation names, the policy is closed, and the reservation at the fourth reading, on the table others' actions lead to by then, and the one at the eighth find one list of grants, the named one among them, with more than a second left of everything at the ninth. Then every sealed grant was live in each state from the first reservation to the second, so none of the actions between revoked one |
| OwnerDecision.AdmittablePasses | crates/context-service/src/authenticated_ingress/owner_invocation.rs:83-190 | no check made on the way refuses what both reservations and the last reading allow |
| OwnerDecision.PassesAdmittable | crates/context-service/src/authenticated_ingress/owner_invocation.rs:83-190 | and checks that all pass leave nothing else to ask: both reservations found the same grants in the same order |
| OwnerDecision.ScopesCovered | crates/context-service/src/protected_owner_credentials.rs:18-29 | the harness scope each permission calls for, one by one |
| OwnerIngress.Ingress.Revalidate | crates/context-service/src/authenticated_ingress/owner_invocation.rs:202-262 | succeeds iff what was sealed still names the invocation's principal and credential, the grants found at its second reading, on the table others' actions lead to, are exactly the sealed ones, they had started at its first and neither they, the principal nor the credential have expired at its third. Then every sealed grant has been live since the admission's first reservation |
| OwnerIngress.Ingress.RevalidateRepeatedly | crates/context-service/src/authenticated_ingress/owner_invocation.rs:202-262 | over any attempts, actions and clock readings: none succeeds once the readings taken by then, or before, show something sealed as expired, even if later ones go back |
| OwnerIngress.RevocationDenies | crates/context-service/src/authenticated_ingress/owner_invocation.rs:150-168 | a revocation between the reservations takes a sealed grant out of what was live, so such an admission is not sealed |
| OwnerAdmission.WallClock.Advance | crates/context-service/src/authenticated_ingress/owner_invocation.rs:372-381 | takes one reading; the floor is the highest reading so far, and is the time used |
| OwnerAdmission.HighestTaken | crates/context-service/src/authenticated_ingress/owner_invocation.rs:372-381 | that time is a reading that was taken |
| OwnerAdmission.HighestGrows | crates/context-service/src/authenticated_ingress/owner_invocation.rs:372-381 | that time never decreases, and never stands below a reading taken |
| OwnerAdmission.LiveThroughout | crates/context-service/src/authenticated_ingress/owner_invocation.rs:150-168 | grants that two reservations agree on were live in every state between them |
| OwnerAdmission.SameGrantsExactly | crates/context-service/src/authenticated_ingress/owner_invocation.rs:308-320 | the sorted comparison holds iff both lists hold the same grants, no permission being granted twice |
| OwnerAdmission.ValidateAdmittedGrants | crates/context-service/src/authenticated_ingress/validation.rs:139-168 | passes iff every grant fits the principal, scope and time, no permission is granted twice and each required one is granted |
| OwnerAdmission.GrantsFitFields | crates/context-service/src/authenticated_ingress/validation.rs:139-168 | field by field: every grant of this issuer, subject and scope, started and not expired, one for each required permission and no other |
| OwnerAdmission.ValidateSelectedGrants | crates/context-service/src/authenticated_ingress/owner_invocation.rs:288-306 | and iff the grants' harness scopes are exactly the selected ones |
| SubjectGrants.LiveBetween | crates/context-service/src/subject_grants.rs:184-280 | a grant live at two states was live at every state between: ids are not reused and revocation is one-way |
| SubjectGrants.GrantStore.Provision | crates/context-service/src/subject_grants.rs:184-227 | adds one unrevoked row under a new id, or nothing; the error is the first check that fails |
| SubjectGrants.GrantStore.Perform | crates/context-service/src/subject_grants.rs:184-280 | others' provisions and revocations leave one state of the history each, the one they lead to |
| SubjectGrants.GrantStore.Revoke | crates/context-service/src/subject_grants.rs:231-280 | the first revocation marks the row and counts one generation; any later one changes nothing |
| SubjectGrants.ProvisionExactly | crates/context-service/src/subject_grants.rs:184-227 | a provision is taken iff the database works, there is room below 4096 rows, the id is new and every field is in order |
| SubjectGrants.FoundExactly | crates/context-service/src/subject_grants/storage.rs:30-98 | the grant found is live, matches, has started and not expired, and no such grant expires later, nor as late with a smaller id |
| SubjectGrants.GrantStore.Reserve | crates/context-service/src/subject_grants.rs:301-340 | for each permission the first admissible row in the query's order, or a denial because some permission has none |
| SubjectGrants.GrantStore.Find | crates/context-service/src/subject_grants/storage.rs:30-98 | the admissible row with the latest expiry, ties to the smaller id, or none because there is none |
| ControlReceipts.CommandExactly | crates/context-service/src/harness_context_owner_wire/control.rs:66-113 | a command fits a binding iff it expects the binding's control version, a commit or resume also its whole boundary, and a commit approves the manifest it previewed |
| ControlReceipts.AcceptedFields | crates/context-service/src/harness_context_owner_wire/control.rs:142-229 | a receipt is accepted iff, field by field: a pause is answered by a pause receipt with its effect, a commit by a commit receipt with its effect, both manifests equal and a fresh revision, a resume by a resume receipt with its effect; each with the binding's names and the one move of version and epoch it makes |
| ControlReceipts.AcceptedBinding | crates/context-service/src/harness_context_owner_wire/control.rs:142-160 | behind every accepted receipt stands a binding in order, whose grants build on one another |
| ControlReceipts.AcceptedMoves | crates/context-service/src/harness_context_owner_wire/control.rs:142-256 | an accepted receipt moves the control version by one, the plan epoch by one for a commit, the gate epoch by one otherwise, and nothing else of the boundary |
| ControlReceipts.AcceptedExactly | crates/context-service/src/harness_context_owner_wire/control.rs:142-229 | a receipt is accepted iff the command fits the binding and the receipt is the one answer to it, up to a command id and, for a commit, a fresh revision id |
| ControlReceipts.AcceptedTwice | crates/context-service/src/harness_context_owner_wire/control.rs:142-229 | two receipts accepted for one binding and command differ at most in those |
| ControlReceipts.Conserved | crates/context-service/src/harness_context_owner_wire/control.rs:232-256 | along a chain the control version counts receipts, the plan epoch commits, the gate epoch the others; every other boundary field stays |
| ControlReceipts.ChainConserves | crates/context-service/src/harness_context_owner_wire/control.rs:232-256 | control version less gate epoch less plan epoch is constant, and so is the controller epoch |
| ControlReceipts.CommandOnce | crates/context-service/src/harness_context_owner_wire/control.rs:66-113 | a command valid at one binding of a chain is refused at every later one |
| ControlReceipts.ReceiptOnce | crates/context-service/src/harness_context_owner_wire/control.rs:142-197 | a receipt accepted at one binding is accepted at no later one, for any command |
| CanonicalValue.CanonicalExactly | crates/context-service/src/owner.rs:1093-1107 | two values have one canonical form iff they differ only in member order, at any depth |
| CanonicalPaths.ValidExactly | crates/context-service/src/owner.rs:959-980 | a value passes iff nothing in it lies deeper than eight steps from the root and no object anywhere in it has a forbidden member |
| CanonicalPaths.ForbiddenExactly | crates/context-service/src/owner.rs:982-1018 | which members are forbidden, word by word |
| CanonicalPaths.LowerAt | crates/context-service/src/owner.rs:982-984 | keys are compared in lower case: each of the 26 letters changes to its own small one, and nothing else changes |
| CanonicalPaths.EffectExactly | crates/context-service/src/owner.rs:1054-1070 | an effect is counted iff some object anywhere in the value reports at least one inference call, native call or game effect |
| CanonicalValue.CanonicalIdempotent | crates/context-service/src/owner.rs:1093-1107 | canonicalising twice is canonicalising once |
| CanonicalValue.CanonicalValueOf | crates/context-service/src/owner.rs:1093-1107 | the loops over sorted entries and elements compute the canonical form |
| CanonicalValue.CanonicalSame | crates/context-service/src/owner.rs:1093-1107 | a value differs from its canonical form only in member order, and the form repeats no key |
| CanonicalValue.CanonicalKeepsVerdicts | crates/context-service/src/owner.rs:959-980 | canonicalising changes neither whether a value passes the public checks nor whether it counts an effect |
| CanonicalValue.ChecksIgnoreOrder | crates/context-service/src/owner.rs:959-980 | neither does any other reordering of members |
| CanonicalValue.ValidReflects | crates/context-service/src/owner.rs:959-1018 | a value passes the depth and forbidden-field checks if a reordering of it does |
| CanonicalValue.EffectReflects | crates/context-service/src/owner.rs:1054-1070 | an effect counted in a value is counted in any reordering of it |

## Left out

- ReferenceFacades.Facade.RefreshCapabilities: does not check the capabilities an owner returns; an answer that fails those checks counts as its error.
- DurableTables.PersistedLoads: does not look inside the integrity check of a decoded journal, nor at what recovery writes besides the epoch; both are inputs.
- SHA-256, XChaCha20-Poly1305 and the encodings under them: a digest is an abstract function of bytes, and a journal row holds the plane its envelope would decrypt to.
- SQLite beyond atomic tables: page, log and file size limits, schema checks and locking appear only as statements that may fail.
- serde: string decoding is a parameter of the bounds scan, and the shape scan's tokens come from an abstract lexer that consumes at least a byte a token.
- JsonShapeSplit.PassesExactly: asks of the deserializer that a token it reads is one wherever it stands; what its tokens are is not modelled.
- JsonParser.Parser.ReadValue: promises only its bounds after an error, because the parser is then dropped.
- JsonParser.Parser.Enter: does not model the overflow of a machine-word counter, which the bound of 32 keeps out of reach; the same holds for the item counter and the scanners' offsets.
- JsonGuard.ValidateShape: the 16 KiB limit and the typed decode around it in `parse_json`.
- ReferenceFacades.Facade.ListItems: the content of items and its size limits, because references do not depend on them.
- ReferenceFacades.Facade.EditDraft: does not model the text of timestamps; a note's expiry is a flag.
- ReferenceFacades.Run: does not say when a request that has to ask about a reference is forwarded; the four methods that forward say it for requests whose references are held.
- The facade is modelled on the legacy ingress only. The trusted ingress forwards no mutation; grants, HTTP routing, headers and the state and capability reads hold no reference.
- Entity checks that no reference depends on are one flag per entity, and an owner's operation names stand for all their aliases.
- PublicationFrame.RequestFrame: stops at the frame, before its digest.
- DurableStores.DurableStore.Persist: does not model the update time of a journal row.
- The control-plane reducer is not part of this model: a mutation is any partial function of planes.
- OwnerIngress.Ingress.Admit: bearer verification, claim checks, the HTTP envelope and credential resolution are inputs and may answer anything; a clock reading is one already rounded up to whole seconds; the operation's required permissions are an input.
- The monotonic deadline of an admission is an input of each check, not a clock.
- SubjectGrants.GrantStore.Reserve: optional permissions, which owner admission never asks for.
- Revalidation of the current identity, source adoption, snapshot, event and association checks, record admission and the capture ring: thin checks, settled by reading one function.
- ControlReceipts.ChainConserves: how an owner advances a binding is not shown; a chain only asks that the next binding stand at the receipt's boundary and plan epoch.
- CanonicalValue.CanonicalKeepsVerdicts: which of two faults is reported first depends on member order; only acceptance does not.
