# A Dafny model of the contest harness

The harness decides whether two engines, solc with the EVM and solidity-lean, saw the same
call and produced the same observable. This project models the code that decision rests on
and proves what it promises.

- **Codec** (`Basics`, `Text`, `AbiTypes`, `Components`, `NormalForm`, `AbiSpec`, `AbiLayout`,
  `Decoder`, `RoundTrip`, `Claim`, `Commute`, `Validity`, `Forms`). A claim argument travels
  two ways: ABI-encoded for the EVM, and as a Lean value. `AbiSpec.Abi` is the encoding of the
  Solidity Contract ABI Specification, section "Formal Specification of the Encoding", written
  over values and types; the harness's encoder and decoder are separate members proved against
  it, and `AbiLayout` says byte by byte what it is, by chains of components alone. Types are a
  datatype over an acyclic struct table, at any nesting of arrays, structs, bytes and external
  function values.
- **Observable** (`PyText`, `Storage`, `Observable`, `Reverts`). The printed line, its
  sections, revert canonicalisation, and the comparator, proved exact against a verdict
  computed from abstract outcomes.
- **Fingerprint** (`IndexSort`, `Fingerprint`, `FingerprintWalk`, `FingerprintProofs`,
  `FingerprintDistinct`, `FingerprintOrder`, `FingerprintShape`, `FingerprintNodes`,
  `FingerprintBinding`, `FingerprintOperands`, `FingerprintCollision`). The alpha-renaming
  structural hash, on free terms. `FingerprintWalk` is the mutating walk, proved against
  `Fingerprint.Canon`; the theorems are about `Canon`.
- **Helpers** (`HarnessCache`, `AstWalk`, `CoverageGuard`, `Minimality`, `Balances`,
  `Unescape`, `Register`). Code that updates state in the repository is a class or a loop
  here, tied to a specification function whose properties are the theorems.
- **Decision** (`Printers`, `Adjudicate`, `ClaimFields`, `AdjudicateProofs`,
  `AdjudicateVerdicts`, `AdjudicateRun`, `EndToEnd`, `RevertScope`, `Honest`, `Collisions`,
  `AdjudicateWitnesses`). The order of steps for whole-function claims as a function of the
  claim and the oracles' answers, using the validator, encoder, renderer, gate, printers,
  decoder and comparator above rather than abstractions of them, up to a statement of the
  verdict from what the two engines did.

## Where the code does not meet its promise

Each has a concrete input and an exact condition.

- The validator takes a JSON boolean for a component of an external function value; encoder
  and renderer raise on it, so the adjudicator raises instead of giving a verdict
  (`BooleanComponentRaises`, `EncodeAccepted`, `RaisesExactly`).
- A bare integer accepted for `intN` prints differently on the two sides
  (`BareIntegerDiverges`, `CommutesExactly`).
- The comparator strips the outcome, so revert reasons differing in trailing white space
  compare equal (`TrailingSpaceMasked`; `CompareExact` says this is the only masking of
  outcomes).
- Declared errors of one name under different selectors print alike for equal values
  (`NamesakesPrintAlike`, `ThrownSeparated`).
- Resolving a colliding selector to the error the model names can mask a difference: the
  decoder ignores bytes after the named error's arguments, and bits outside narrow types
  (`CollisionMasks`, `TrailingBytesMasked`, `FaithfulExactly`).
- Canonicalising a line without sections splits a reason that quotes a marker
  (`QuotedMarkerSplits`, `SectionlessExactly`). Neither printer leaves the sections out, so the
  adjudicator itself never builds such a line from a revert.
- A time limit that runs out decides in two places: an importer timeout is credited as a
  coverage gap, and an over-accept run without an answer counts as agreement
  (`ImporterTimeoutCredited`, `SilenceAgrees`, `ToolFailureExactly`).
- An over-accept claim with a list argument raises once its import succeeds (`ListArgument`,
  `RaisedExactly`). The importer fails on any error diagnostic of solc, so if it sees the
  rejection the lane is for, the lane credits nothing (`OverAcceptNeverCredits`).
- Declarations register an index but emit nothing, so a reference to a later declaration is
  hashed by first use and programs calling different later functions can share a fingerprint
  (`ForwardReferenceCollision`; `EqualHashesExactly` under the scope premise,
  `EqualHashesAgree` without it).
- Top-level members with equal preliminary hashes are hashed in source order, though member
  order is documented as irrelevant; references are hidden from the preliminary hash, built-in
  ones included (`MemberOrderShows`, `MembersAlikeExactly`).
- An infinite number (`1e999` is JSON) as fuel, slot or argument word raises
  (`InfiniteNumbersRaise`), and so does a list as solc error code (`UnhashableCodeRaises`) and,
  once the comparison is reached, a declared observable that is no object with a text
  (`IllTypedDeclarationRaises`). `RaisedExactly` has the exact condition of each.
- The declared observable is documented as a cross-check; ill-typed, it decides whether there
  is a verdict at all (`DeclaredExactly`).
- The size bound of the cache is checked against the payload when an entry is put, and against
  the file with its envelope when it is read, so an accepted entry near the bound is never read
  back (`PublishedReadBack`).
- The coverage guard raises on a list reported in a field with a domain of values
  (`GuardExactly`).
- A scalar inside a list directly inside a list is not reported (`NestedListReportedWhole`,
  `ScalarsExactly`, `ReportsExactly`).
- `effective_deals` is documented to keep last-occurrence order; the dict keeps
  first-occurrence order (`NotLastOrder`, `LastOrderExactly`). Lookups do not depend on it
  (`OverlayIsReplay`).
- Mappings pass the early parameter and return fences and not the later ones
  (`MappingDropsOut`, `AdmittedGrows`, `ReturnableGrows`).

## Reading the model

- An operation that may raise returns `Option`, `None` standing for the exception.
- `Table.rank` witnesses that no struct contains itself; structs have members, fixed arrays
  have positive length, enums have at most 256 members. solc enforces these for ABI types.
- Several theorems assume an encoding shorter than 2^256 bytes. Beyond it `to_bytes` raises.
- Lean's `norm`, `signedValue` and `signedToWord` belong to SolidCore, which is not part of
  this model; they are taken as reduction modulo 2^256 and two's complement.
- A hash is the term it is taken of: equal terms are equal hashes barring a SHA-256 collision.
  `Order` carries the canonical key order and the numeric order of digests as parameters;
  `RanksKeys` says when its key order is the source's, priority keys first.
- In `HarnessCache` a JSON payload is its canonical encoding.
- `CoverageGuard.Tables` holds the importer's classification tables as a parameter; the two
  premises on them, `DotFree` and `Separate`, hold of the repository's tables.
- A leaf whose typeString starts with "interface " is decoded as signed. solc prints interface
  types as "contract X", so the second condition of `SignedForms` is about a string it does not
  emit.
- Lean's hash table is a list of pairs with distinct slots, and its log entries are those of
  the entry contract; how the evaluation produces them is not part of this model.
- Entry names are read by the harness's regular expression, whose end anchor lets one final
  newline through; `Adjudicate.IsIdentifier` says so.

## Model

| member | source | states |
|---|---|---|
| Validity.ValidatorExactly | contest/adjudicate.py:1220-1379 | at every nesting, the values denoted by the arguments the validator accepts are exactly the legal values of the parameter type: `v` is in the type's domain iff some accepted argument denotes it |
| Validity.AcceptedInDomain | contest/adjudicate.py:1220-1379 | no dirty bool, out-of-range uintN/intN/address/enum, over-wide function component or wrong arity is accepted |
| Validity.Expressible | contest/adjudicate.py:1220-1379 | no legal value is shut out: each has a claim form that is accepted and denotes it |
| Forms.FormsExactly | contest/adjudicate.py:1173-1379 | the argument forms themselves, at any nesting: accepted are exactly true, false, n and {"word": n} with the number in the leaf's range, {"int": z} for intN in two's complement range, {"bytes": ..} for bytes and strings, and lists of the right length of accepted components |
| Forms.ScopeExactly | contest/adjudicate.py:1220-1379 | an argument is out of scope rather than malformed iff the first component that is not accepted is of a type without known bounds |
| Forms.RenderedBuilt | contest/observable.py:361-466 | whatever is rendered has the constructor of its type at any nesting: dynamic arrays for T[], fixed ones of N for T[N], tuples for structs |
| Claim.ValidateArg | contest/adjudicate.py:1220-1379 | the recursive validator, type shape by type shape, computes the domain verdict the theorems above speak of |
| Claim.ValidateArgs | contest/adjudicate.py:1265-1313 | the element loop returns the verdict of the first component that is not legal, and only that |
| Claim.EncodeTypedBytes | contest/measure.py:280-341 | the type-directed encoder: raises in exactly the stated cases, else the flag and bytes of `EncodeTyped` |
| Claim.EncodeTupleBytes | contest/measure.py:344-360 | the head/tail encoder over an argument list, with its two loops |
| Claim.LayOut | contest/measure.py:352-360 | the loop that grows head and tail produces the layout of the ABI specification, offsets included, unless an offset leaves 256 bits |
| Commute.EncodeAccepted | contest/measure.py:280-341 | on an accepted argument the encoder yields the specified encoding of the value it denotes, with the type's own dynamic flag, iff no component of an external function value is a JSON boolean; otherwise it raises |
| Commute.EncodeAllAccepted | contest/measure.py:344-360 | the same for a whole argument list |
| Commute.RenderAccepted | contest/observable.py:361-447 | the Lean renderer raises in exactly the same cases, and its value prints what the argument denotes iff every intN leaf is in the {"int": n} form and no leaf is typed "interface ..." |
| Commute.RenderAllAccepted | contest/observable.py:450-466 | the same for a whole argument list |
| Commute.CommutesExactly | contest/measure.py:280-360 | an accepted argument's calldata bytes, followed by any bytes, decode to the text the Lean value prints iff function components are plain and leaves are in signed form |
| Commute.ArgumentsCommuteExactly | contest/measure.py:344-388 | the commuting diagram for a whole calldata or constructor argument list, any bytes appended |
| Commute.EncodingLossless | contest/measure.py:244-341 | two accepted arguments of one type encode alike iff they denote the same value: no reduction modulo 2^256, 2^160 or 2^32 ever identifies two |
| Commute.BooleanComponentRaises | contest/adjudicate.py:1284-1297 | witness: [true, 0] is accepted for an external function parameter, and both encoder and renderer raise on it |
| Commute.BareIntegerDiverges | contest/observable.py:429-438 | witness: a bare 5 is accepted for int256 and the two engines' texts differ (w:5 against i:5) |
| AbiSpec.AbiLength | contest/observable.py:553-582 | a type's static encoding has exactly the decoder's head size, and every encoding is a whole number of words |
| AbiSpec.LayoutHead | contest/measure.py:352-360 | head slot k of a layout holds component k inlined, or the offset of its tail |
| AbiSpec.LayoutTail | contest/measure.py:352-360 | the bytes at a component's offset start with that component's own encoding |
| Components.DynamicExactly | contest/observable.py:553-566 | a type is dynamic iff a chain of components leads to bytes, a string or a T[]; fixed lengths play no part |
| AbiLayout.StaticTuple | contest/measure.py:344-360 | a list of types from which no chain of components reaches bytes or T[] is encoded as the leaf words of its values, in order, and nothing else |
| AbiLayout.TupleSlots | contest/measure.py:344-360 | in any list such a component stands inline as its leaf words; every other has an offset word in its slot, and its encoding at that offset, after the tails before it |
| AbiLayout.TupleEnds | contest/measure.py:344-360 | the encoding ends where the last tail ends |
| AbiLayout.ComponentsTyped | contest/observable.py:569-582 | T[N] holds N values of T, T[] any number, a struct one value a member |
| AbiLayout.BytesPadded | contest/measure.py:255-262 | bytes are a length word, the bytes, and zeros to the next word boundary |
| Basics.BigEndian | contest/measure.py:244-262 | words are read and written with the most significant byte first |
| RoundTrip.DecodeOfAbi | contest/observable.py:609-645 | decoding the encoding of any typed value, followed by any bytes, never raises and gives the value back |
| RoundTrip.TupleOfAbi | contest/observable.py:585-606 | the same for a tuple of values against its type list |
| RoundTrip.OffsetsInside | contest/measure.py:344-360 | every offset is a multiple of 32, lies past the head, and its tail lies inside the encoding |
| RoundTrip.AbiInjective | contest/measure.py:280-341 | two typed values encode alike iff they are equal |
| RoundTrip.AbiTupleInjective | contest/measure.py:344-360 | two typed value lists encode alike iff they are equal |
| Decoder.DecodeValueText | contest/observable.py:609-645 | the decoder on arbitrary bytes: terminates, reads inside its buffer, prints the value `DecodeValue` recovers or raises |
| Decoder.DecodeComponentsText | contest/observable.py:622-641 | array and struct bodies, rejecting a length that the body cannot hold |
| Decoder.DecodeTupleText | contest/observable.py:585-606 | the loop over a type list: one text per type, or raises at the first failure |
| Decoder.DecodeFieldText | contest/observable.py:592-605 | one head slot: inline, or through an offset checked against the region |
| Decoder.DecodeAppend | contest/observable.py:609-645 | a successful decode is unchanged by appending bytes |
| Decoder.TupleAppend | contest/observable.py:585-606 | the same for a type list |
| Decoder.DecodeTyped | contest/observable.py:489-518 | whatever the bytes, a decoded value has the requested type |
| Decoder.TupleTyped | contest/observable.py:585-606 | one typed value per type |
| Decoder.DecodeBounded | contest/observable.py:609-645 | decoded leaves are at most the product of fixed lengths and (length / 32) per dynamic array level |
| Decoder.TupleBounded | contest/observable.py:585-606 | the same bound for a type list |
| NormalForm.PrintCancel | contest/observable.py:83-106 | unique readability: two printed values followed by delimiters that agree as text agree as values and leave the same rest |
| NormalForm.PrintInjective | contest/observable.py:83-106 | different nested values print differently |
| NormalForm.PrintAllInjective | contest/observable.py:108-109 | different value lists print differently, lengths included |
| NormalForm.RenderIsPrint | contest/observable.py:83-106 | the Lean renderer prints the observed value: norm and signedValue happen before printing, never in the text |
| NormalForm.RenderSeparates | contest/observable.py:83-106 | two Lean values print alike iff they observe the same value |
| Storage.ParseStorageMap | contest/observable.py:948-968 | the segment loop: blanks and unparsable segments skipped, zeros dropped, later segments win |
| Storage.StorageOfDump | contest/observable.py:948-968 | any dump listing each non-zero slot with its final value, in any order with repeats, zeros and blanks, parses to exactly the non-zero slots |
| Storage.DumpsCompare | contest/observable.py:166-173 | two dumps parse to the same map iff the storages agree on every slot |
| Observable.LineSections | contest/observable.py:739-762 | the right split recovers the three sections whatever the outcome text contains, given marker-free events and storage |
| Observable.LineParses | contest/observable.py:821-822 | reading a printed line back leaves it unchanged |
| PyText.StripExactly | contest/observable.py:957-1006 | stripping takes off all blanks at both ends and nothing else, blanks being listed |
| PyText.ParseSigned | contest/observable.py:953-966 | a printed number, signed or with a plus, is read as that number |
| Text.HexPieces | contest/observable.py:679 | raw revert hex is read in either case, by pairs, and ASCII blanks as nothing |
| Text.HexConcat | contest/observable.py:679 | pieces of hex text are read one after the other |
| Text.HexCharsOnly | contest/observable.py:679 | any other character makes the reading raise |
| Observable.OutcomeKind | contest/observable.py:785-803 | the outcome class read from the text is the class of the outcome, even when a reason contains bars or the word panic |
| Observable.RevertTextInjective | contest/observable.py:111-121 | two revert data print alike iff equal |
| Observable.OutcomeTextInjective | contest/observable.py:123-130 | two outcome lines are equal iff phase, class and values or revert data are |
| Observable.EventsCancel | contest/observable.py:201-209 | different event lists print differently, topics and data at any length |
| Observable.CompareExact | contest/observable.py:971-1014 | on any two printed lines the comparator reaches exactly the verdict and differing component the abstract outcomes call for, reasons compared up to trailing white space |
| Observable.TrailingSpaceMasked | contest/observable.py:971-1014 | witness: Error("no ") and Error("no") compare equal |
| Reverts.RawAndDecodedAgree | contest/observable.py:825-864 | for every byte string and either phase head, the raw and the decoded form of the same revert data canonicalise to the same line |
| Reverts.CanonicalizeIdempotent | contest/observable.py:825-864 | canonicalising twice is canonicalising once, on any text |
| Reverts.SectionsPreserved | contest/observable.py:825-864 | phase head, events and storage survive, on lines carrying both sections |
| Reverts.SectionlessExactly | contest/observable.py:841-863 | a raw line without sections canonicalises to one without sections iff its bytes do not decode to Error(m) with a section marker inside m |
| Reverts.QuotedMarkerSplits | contest/observable.py:852-863 | witness: the raw bytes of Error("##EVT##") canonicalise to a line that reads as having an events section |
| Reverts.DecodeThrown | contest/observable.py:668-699 | the revert decoder recovers Error, Panic and declared custom errors from their canonical encodings |
| Reverts.ThrownSeparated | contest/observable.py:668-699 | two canonical encodings print alike iff the bytes are equal or they are same-named errors with equal values under different selectors |
| Reverts.DecodeRevertExactly | contest/observable.py:668-699 | on any bytes: empty iff there are none, Error, Panic or declared error iff they have that shape, in this order, and all bytes kept otherwise |
| Reverts.ErrorReason | contest/observable.py:684-690 | the reason is the text of the bytes the data's own offset and length point to, cut where the data ends |
| Reverts.NamesakesPrintAlike | contest/observable.py:689-697 | witness: E(uint256) and E(uint8) thrown with 5 have different bytes and one text |
| FingerprintWalk.Walk.SetDefault | contest/fingerprint.py:147-149 | refmap stays a bijection onto 0..n-1 in visit order, gains at most the id asked for, and no entry ever changes |
| FingerprintWalk.Walk.Head | contest/fingerprint.py:145-173 | registration, then reference identity, in that order |
| FingerprintWalk.Walk.CanonNode | contest/fingerprint.py:129-196 | the mutating walk computes the specified term and leaves the specified map; the preliminary pass leaves the map alone |
| FingerprintWalk.Walk.CanonList | contest/fingerprint.py:136-137 | a list is walked left to right |
| FingerprintWalk.Walk.SortMembers | contest/fingerprint.py:188-189 | source-unit members are ordered by reference-free hashes without touching the map |
| FingerprintWalk.Walk.CanonEntry | contest/fingerprint.py:184-195 | one entry: a child, or a list of children |
| FingerprintWalk.Walk.CanonEntries | contest/fingerprint.py:182-195 | entries in canonical key order |
| FingerprintWalk.CanonicalAstHash | contest/fingerprint.py:199-206 | one fresh map per file, digests sorted |
| FingerprintProofs.CanonAlpha | contest/fingerprint.py:129-196 | renaming by an injection leaves the term unchanged and renames the map, from any starting map |
| FingerprintProofs.HashInvariant | contest/fingerprint.py:199-206 | alpha-equivalent programs have one fingerprint |
| FingerprintProofs.ReskinInvariant | contest/fingerprint.py:145-173 | mapping ids and non-negative references by any injection, changing names the walk does not read and replacing entries it skips keeps the fingerprint; stated with no reference to the walk's order |
| FingerprintDistinct.CanonExtends | contest/fingerprint.py:147-149 | over a whole walk the map is only ever extended and stays repetition-free |
| FingerprintDistinct.CanonDistinct | contest/fingerprint.py:129-196 | equal terms give equal content under any map linking the two numberings |
| FingerprintDistinct.EqualHashesAgree | contest/fingerprint.py:129-206 | with no premise on the programs, equal fingerprints imply equal hashed content and references that agree under one injective renaming |
| FingerprintDistinct.EqualHashesExactly | contest/fingerprint.py:129-206 | with unique declaration ids and no forward reference, fingerprints are equal iff the programs are alpha-equivalent, declarations included |
| FingerprintNodes.MetExactly | contest/fingerprint.py:182-203 | the walk meets every node of a syntax tree exactly once, whatever the key order |
| FingerprintBinding.GroundedExactly | contest/fingerprint.py:35-39 | when every reference is built in or to a node already met, of any kind solc lets a reference target, and no two of those share an id, equal hashes are exactly alpha-equivalence |
| FingerprintBinding.EqualHashesHeads | contest/fingerprint.py:129-174 | with no premise, equal hashes mean the same nodes met: types, salient attributes, argument names, built-in targets, parse-only names and elementary type names |
| FingerprintBinding.EqualHashesBind | contest/fingerprint.py:94-101 | on such programs equal hashes mean that the i-th node met refers to the j-th in one iff it does in the other |
| FingerprintBinding.MovedReferenceShows | contest/fingerprint.py:35-39 | on such programs that declare alike, any reference moved to another declaration changes the hash |
| FingerprintOperands.ParametersDiffer | contest/fingerprint.py:113-118 | a function of two parameters returning a - b and one returning b - a hash differently, under every order that ranks keys as the source does |
| FingerprintOperands.LocalsDiffer | contest/fingerprint.py:174-195 | the same for local variables |
| FingerprintShape.EqualHashesSame | contest/fingerprint.py:129-206 | read in scope order, programs with equal fingerprints are related by a relation that mentions no walk: one injective renaming of declarations and references, entries and members in any order, unread parts arbitrary |
| FingerprintShape.EqualHashesSameExactly | contest/fingerprint.py:129-206 | when no two entry keys and no two members tie, fingerprints are equal iff the programs are so related |
| FingerprintCollision.ForwardReferenceCollision | contest/fingerprint.py:147-169 | witness: calling a later g and calling a later h share a fingerprint though no renaming relates the two programs |
| FingerprintOrder.MemberOrderForgotten | contest/fingerprint.py:187-191 | reordering source-unit members changes neither term nor map as long as members with equal preliminary hashes keep their order |
| FingerprintOrder.MembersAlikeExactly | contest/fingerprint.py:187-191 | two member lists are walked in one order iff for every preliminary hash they hold the same members in the same order |
| FingerprintOrder.DistinctTies | contest/fingerprint.py:42-44 | members with pairwise distinct preliminary hashes may be permuted freely |
| FingerprintCollision.MemberOrderShows | contest/fingerprint.py:187-191 | witness: the preliminary hash hides built-in references too, so two functions calling keccak256 and sha256 tie, and swapping them changes the fingerprint under every order |
| FingerprintOrder.EveryEntryOrderForgotten | contest/fingerprint.py:182-183 | storing the entries of any nodes, at every depth at once, in any other order changes neither term nor map |
| FingerprintOrder.CombinedExactly | contest/fingerprint.py:199-206 | two file sets share a combined hash iff their per-file digests agree as multisets |
| FingerprintOrder.FileOrderForgotten | contest/fingerprint.py:199-206 | permuting files keeps the combined hash |
| HarnessCache.Cache.Get | scripts/harness_cache.py:77-100 | a hit moves to the most recent end; a miss falls through to the checked disk entry; nothing else changes |
| HarnessCache.Cache.Put | scripts/harness_cache.py:103-139 | refuses oversized payloads, replaces in memory, evicts, publishes to disk |
| HarnessCache.Cache.Remember | scripts/harness_cache.py:110-120 | the eviction loop with its running byte counter computes the specified memory and keeps the counter equal to the sum of lengths |
| HarnessCache.Cache.Cached | scripts/harness_cache.py:142-149 | hit or compute-and-publish |
| HarnessCache.SurvivorsLongest | scripts/harness_cache.py:116-120 | what an accepted put keeps is exactly the longest most recently used suffix within both bounds |
| HarnessCache.JustPutSurvives | scripts/harness_cache.py:110-120 | the entry just put survives its own eviction loop |
| HarnessCache.EveryRun | scripts/harness_cache.py:77-120 | after every run of gets and puts: at most 64 entries and 32 MiB, no key twice, entries in order of last use, each holding its last accepted put |
| HarnessCache.HitIsLastPut | scripts/harness_cache.py:77-84 | a memory hit is the last accepted put of its key |
| HarnessCache.AskHonest | scripts/harness_cache.py:142-149 | one cached call on an honest state returns the true value and keeps the state honest |
| HarnessCache.CachedComputes | scripts/harness_cache.py:142-149 | after any history of calls, payload rewrites under the recorded digest, corruption and deletion, a cached call returns what compute would, barring digest collisions |
| HarnessCache.PublishedReadBack | scripts/harness_cache.py:77-139 | an accepted entry written to disk is answered from there once memory has lost it, iff its file, envelope included, is within the size bound (null, which reads as a miss, aside) |
| AstWalk.NodeTypesExactly | scripts/solc_ast_to_lean_source.py:178-193 | every node once, in top-down order |
| AstWalk.SpotsExactly | scripts/solc_ast_to_lean_source.py:243-327 | the traversal the statements below speak of visits what lies in lists and entries, one level down at a time: the path grows by keys and restarts at each node |
| AstWalk.EdgesExactly | scripts/solc_ast_to_lean_source.py:243-275 | exactly the edges of one top-down traversal, from the nearest enclosing node with the full field path |
| AstWalk.OneEdgePerNode | scripts/solc_ast_to_lean_source.py:243-275 | rooted at a node, edges point at every other node in order: one edge fewer than nodes |
| AstWalk.ScalarsExactly | scripts/solc_ast_to_lean_source.py:282-327 | every scalar below a node once under its nearest node and nothing else, iff no list lies directly inside a list below a node |
| AstWalk.ReportsExactly | scripts/solc_ast_to_lean_source.py:282-327 | on any tree, exactly the reports of one top-down pass: every scalar below a node with its place, a list directly inside a list whole, and nothing under that list up to the next node |
| AstWalk.NestedListReportedWhole | scripts/solc_ast_to_lean_source.py:296-304 | witness: under a node, a scalar in a list in a list is not reported, the inner list is |
| AstWalk.Walker.GoTypes | scripts/solc_ast_to_lean_source.py:178-193 | the appending recursion for node types |
| AstWalk.Walker.CollectEdge | scripts/solc_ast_to_lean_source.py:246-259 | the appending recursion below a node |
| AstWalk.Walker.WalkEdge | scripts/solc_ast_to_lean_source.py:260-272 | the appending recursion above the first node |
| AstWalk.Walker.CollectScalar | scripts/solc_ast_to_lean_source.py:288-308 | the appending recursion for scalars of one node |
| AstWalk.Walker.WalkScalar | scripts/solc_ast_to_lean_source.py:310-324 | scalars of a node first, then those of the nodes inside it |
| CoverageGuard.GuardExactly | scripts/solc_ast_to_lean_source.py:360-457 | on any syntax tree the guard passes iff every node type, every edge and every reported value is listed in the tables, values within the finite domains; it raises iff a list is reported in a field with a domain |
| CoverageGuard.StatusesListed | scripts/solc_ast_to_lean_source.py:203-242 | what each status means by the tables: metadata, exact and rendered paths included |
| CoverageGuard.DetectorsExactly | contest/reject_gate.py:186-212 | the X-ASM detector hits iff there is inline assembly or a node type starting with Yul at any depth, the X-IMPORT detector iff there is an import |
| CoverageGuard.FieldRoundTrip | scripts/solc_ast_to_lean_source.py:373-388 | a counter key splits back into parent and field path when the parent holds no dot |
| CoverageGuard.Detect | contest/reject_gate.py:192-212 | one detector's loop over all dicts of a source |
| CoverageGuard.RunGate | contest/reject_gate.py:1130-1165 | the hits of the two rows in force at a version, with those of all other rows |
| CoverageGuard.GateMatchesImporter | contest/reject_gate.py:192-212 | the importer refuses for an excluded node iff its coverage report does not raise and the X-ASM or the X-IMPORT detector hits |
| CoverageGuard.NoDrift | contest/adjudicate.py:850-855 | after a gate pass at any version from 1.0.0 on, the importer never refuses one of the same sources as excluded |
| Minimality.Search | contest/minimality.py:95-106 | the worklist terminates and computes exactly the functions some chain of references reaches from an entry |
| Minimality.Follow | contest/minimality.py:99-106 | one iteration marks and pushes exactly the new referenced functions |
| Minimality.ReachableLeast | contest/minimality.py:95-106 | that set is the least set holding the entries and closed under references |
| Minimality.Report | contest/minimality.py:108-113 | reported functions are exactly the non-exempt unreachable ones, once each, by name or numbered placeholder in alphabetical order; minimal iff there is none |
| Balances.EffectiveDeals | contest/env.py:158-161 | the dict loop of last-wins deals |
| Balances.LeanBalances | contest/env.py:174-202 | deals, genesis entry and the in-place debit of the first matching entry |
| Balances.OverlayIsReplay | contest/env.py:145-187 | for every address and deal list, first-wins lookup equals last-wins replay on the genesis balance |
| Balances.DebitIsExact | contest/env.py:195-201 | the debit lowers the caller's looked-up balance by exactly the value, only when it covers it, and no other address |
| Balances.DealsKeepFirstOrder | contest/env.py:158-161 | repeated deals keep the position of their first occurrence |
| Balances.LastOrderExactly | contest/env.py:145-161 | the documented last-occurrence order holds iff no address has all its deals strictly between two deals to one other address |
| Balances.NotLastOrder | contest/env.py:156-157 | witness: dealing to 1, 2 and 1 again lists 1 before 2 |
| Balances.OrderExamples | contest/env.py:156-157 | 1, 2, 1 encloses and 1, 2, 1, 2 does not |
| Unescape.UnescapeLeanRepr | contest/harness_bridge.py:289-325 | the index loop, with the backslash-free short cut, computes the specified text |
| Unescape.UnescapeUndoesEscape | contest/harness_bridge.py:289-325 | however each character was written within the grammar (itself, two-character escape, braced hex of any length), unescaping returns the original |
| Unescape.Untouched | contest/harness_bridge.py:297-298 | the identity on backslash-free text |
| Register.SemverTuple | contest/exclusion_register.py:143-151 | the parsing loop, garbage parts as 0 |
| Register.PrintedVersion | contest/exclusion_register.py:143-151 | a dotted version parses to its numbers |
| Register.SemverLtExactly | contest/exclusion_register.py:154-160 | the order compares the first differing component, missing components being 0 |
| Register.SemverOrder | contest/exclusion_register.py:154-160 | a strict weak order whose ties are exactly the versions equal up to trailing zeros |
| Register.OneRowInForce | contest/exclusion_register.py:321-538 | exactly one parameter row and one return row from 1.2.0 on, none before, and which one |
| Register.AdmittedExactly | contest/adjudicate.py:1042-1156 | a parameter type is admitted before 1.2.0, to 1.4.0 iff it is no array, struct, tuple or function, and from then on iff no chain of components leads to a type that cannot be encoded |
| Register.ReturnableExactly | contest/adjudicate.py:655-695 | the same for return types and error parameters, the change at 1.3.0 and external functions from 1.4.0 |
| Register.AdmittedGrows | contest/adjudicate.py:1042-1156 | from 1.2.0 on a later register admits every parameter type an earlier one did, mappings across 1.4.0 being the exact exception |
| Register.ReturnableGrows | contest/adjudicate.py:655-695 | the same for return types, mappings across 1.3.0 being the exact exception |
| Register.MappingDropsOut | contest/adjudicate.py:1042-1061 | witness: a mapping passes the parameter fence at 1.3.0 and not at 1.4.0, the return fence at 1.2.0 and not at 1.3.0 |
| Printers.LeanPrints | contest/observable.py:166-233 | whatever slots are listed, the Lean helper prints the line of the whole outcome: every value, every event after construction, every non-zero slot |
| Printers.HarnessPrints | contest/measure.py:544-569 | whatever slots are listed, the harness is the same, and its loops print every event and every written or seeded slot with its final value |
| AdjudicateProofs.NonInterference | contest/adjudicate.py:328-359 | verdict and lane are those of the claim with feature, seen version, fuel in range and valid slots erased, slots being handed to both printers |
| AdjudicateProofs.DeclaredExactly | contest/adjudicate.py:990-997 | verdict and lane depend on the declared observable iff it is ill-typed and the comparison is reached |
| AdjudicateRun.Run | contest/adjudicate.py:282-1022 | the adjudicator, stage by stage, reading and noting those fields, reports what is decided without them; without the declared observable too unless it is ill-typed |
| AdjudicateRun.Note | contest/adjudicate.py:971-1022 | the comparison step: raises on an ill-typed declared observable, and notes one exactly when the step is reached and it is not the measured one up to blanks |
| AdjudicateProofs.CreditExactly | contest/adjudicate.py:593-1022 | with Forge on, a verdict qualifies iff the fields can be read, the submission is in scope, and either solc rejects what solidity-lean runs, or a legal, reproduced and measured call meets a credited failure, or a measured difference with a well-typed declared observable; lanes included |
| AdjudicateVerdicts.MalformedExactly | contest/adjudicate.py:324-590 | exactly when the verdict is malformed: a field cannot be read, the first argument not taken has a type with bounds or the overloads or arity are wrong, the value is no uint256, or the sources do not compile or lack the entry |
| AdjudicateVerdicts.OutOfScopeExactly | contest/adjudicate.py:440-971 | exactly when it is out of scope: an excluded argument or return type, a cheatcode, a gate hit, a refused revert, or an excluded import |
| AdjudicateVerdicts.ReviewExactly | contest/adjudicate.py:593-970 | exactly when it goes to review: a tool gives no answer, solidity-lean fails inconclusively or generically, or the data does not decode |
| AdjudicateVerdicts.UnmeasuredNeverCompared | contest/adjudicate.py:613-876 | without Forge only the over-accept lane gets a verdict on behaviour; a call solidity-lean runs is malformed for want of a measurement |
| AdjudicateVerdicts.ArgumentVerdicts | contest/adjudicate.py:361-511 | what becomes of a claim at the argument stage, each verdict by a condition on the arguments, exactly |
| AdjudicateVerdicts.GateExactly | contest/reject_gate.py:1130-1165 | from 1.0.0 on the gate passes iff no source holds an import, inline assembly or Yul at any depth and no other row or check reports anything |
| ClaimFields.ReadsExactly | contest/adjudicate.py:1385-1472 | a claim can be read iff its names are identifiers and fuel, slots and arguments are in bounds at every depth; what is read is what the claim says, field by field; and exactly when an infinite number raises instead |
| AdjudicateProofs.TerminalExactly | contest/adjudicate.py:593-1013 | exactly when the verdict is invalid, and exactly when it is no divergence; a failed import counts before any argument is rendered |
| AdjudicateProofs.RaisedExactly | contest/adjudicate.py:282-1022 | everything in a claim that makes the adjudicator raise, with or without Forge: an infinite number in a field; over-accept, an unhashable error code or a list argument once imported; typed, a boolean component, or an ill-typed declared observable once the comparison is reached |
| AdjudicateProofs.RaisesExactly | contest/adjudicate.py:690-694 | with Forge on, a legal call past the scope checks raises iff some external function component is a JSON boolean, or the declared observable is ill-typed and the comparison is reached |
| AdjudicateProofs.ToolFailureExactly | contest/adjudicate.py:593-870 | when a tool gives no answer the verdict still decides in exactly two cases: an over-accept run that times out agrees, and an importer timeout is credited |
| AdjudicateProofs.OverAcceptNeverCredits | contest/adjudicate.py:804-816 | if importing fails on every program solc rejects, the over-accept lane never credits |
| AdjudicateProofs.SameCallExactly | contest/adjudicate.py:775-796 | what the oracles are handed, on a legal call: the harness deploys with constructor bytes and calls with calldata that decode, after the selector, to what the Lean arguments print, both with the claim's value and the Lean side with the harness's calldata, iff function components are plain and leaves are in signed form |
| AdjudicateProofs.CleanNotExcluded | contest/adjudicate.py:850-855 | on a submission in scope the importer never meets an excluded node |
| AdjudicateWitnesses.InfiniteNumbersRaise | contest/adjudicate.py:1385-1435 | witness: a fuel, a slot or a word of 1e999 raises, only TypeError and ValueError being caught |
| AdjudicateWitnesses.UnhashableCodeRaises | contest/harness_bridge.py:206-211 | witness: an over-accept claim whose error code is a list raises once solc rejects |
| AdjudicateWitnesses.IllTypedDeclarationRaises | contest/adjudicate.py:991-992 | witness: an agreeing call gets no divergence, and raises with an ill-typed declared observable |
| AdjudicateWitnesses.ListArgument | contest/harness_bridge.py:354-380 | witness: an over-accept claim with a list argument gets no divergence when its import fails, and no verdict when it succeeds |
| AdjudicateWitnesses.SilenceAgrees | contest/adjudicate.py:804-816 | witness: an over-accept run without an answer counts as agreement with solc |
| AdjudicateWitnesses.ImporterTimeoutCredited | contest/harness_bridge.py:361-369 | witness: an importer timeout on a legal, measured call is credited as a coverage gap |
| EndToEnd.EvmLineIs | contest/observable.py:702-731 | the EVM side prints the line of what the EVM did, for ABI-encoded returns and any revert bytes |
| EndToEnd.DifferenceExact | contest/adjudicate.py:1004-1007 | end to end: canonicalising and comparing what solidity-lean printed with what was measured finds exactly the difference of the two outcomes |
| RevertScope.RevertScopeExactly | contest/adjudicate.py:883-971 | whatever solidity-lean printed, a measured revert is out of scope iff it is refused by its own bytes, the declarations and the error reported: a colliding selector while X-ERRSEL is in force, or a declared error with an excluded parameter type |
| RevertScope.UndeclaredCompared | contest/adjudicate.py:883-971 | short data, Error, Panic and every other undeclared selector are always compared; a declared error is refused iff one of its parameter types is excluded |
| RevertScope.NameIs | contest/adjudicate.py:1159-1170 | only a custom error gives the printed line a name, its own, in either phase |
| Honest.DefinitionFound | contest/adjudicate.py:912-919 | a collision is resolved to the first definition with the selector and the reported name, if there is one |
| Honest.MeasurementIs | contest/measure.py:703-748 | what the EVM did is read back unchanged, and solidity-lean runs at the measured address |
| Honest.AnswerExactly | contest/harness_bridge.py:328-476 | solidity-lean's answer from what importer and evaluation did: each failure by its stage, a rejection as generic iff its message says so, a result as its line |
| Honest.HonestVerdict | contest/adjudicate.py:870-1022 | the verdict from what the two engines did, for any claim in scope whose call both answered: out of scope iff the revert is refused by its data, the declarations and the reported error; none if the declared observable is ill-typed; else a soundness gap iff the outcomes differ and no divergence iff not |
| Collisions.ModelNameRead | contest/adjudicate.py:1159-1170 | the custom-error name read off the model's printed line is the name it reported, whatever its arguments |
| Collisions.CollisionExact | contest/adjudicate.py:884-928 | for any measured bytes under a colliding selector the lines agree iff the phases do and the argument bytes decode, at the error the model names, to the arguments it reports |
| Collisions.FaithfulExactly | contest/adjudicate.py:892-903 | that resolution neither fabricates nor masks a difference of bytes holds iff the argument bytes do not decode at the named error's types or re-encode to themselves (on data read as Error or Panic, iff they do not) |
| Collisions.TrailingBytesMasked | contest/adjudicate.py:892-903 | every encoding of the model's error followed by more bytes compares equal to it |
| Collisions.CollisionMasks | contest/adjudicate.py:892-903 | witness: E2(5, 7) measured and E1(5) reported under one selector, 68 bytes against 36, compare equal |

## Left out

- Subprocesses, files, solc, forge and lake, harness source generation and log parsing: their
  results are the fields of `Adjudicate.World`.
- The text rendering of Lean source by the importer, which has no parser to state a law
  against.
- Solidity typeStrings as text (suffix stripping, prefixes, searching for " external" inside a
  string): types are a datatype, on which `_comparable_channel_type` and
  `_encodable_param_type` coincide.
- JSON objects carrying more than one argument form, odd-length hex, blanks and capitals in
  the hex of a claim's bytes: one form per leaf, bytes already decoded.
- Python's `int()` on underscores, non-ASCII digits and the 0x prefix; `chr` of a number too
  large for a C integer.
- UTF-8 decoding with replacement: a parameter of the revert decoder. Where a theorem needs
  it, two reasons that decode alike are assumed to be the same bytes.
- The r: fallback of the Lean printer, for values no ABI type denotes.
- `sha256` of the concatenated text: the fingerprint's string assembly with its separators is
  read as a free term.
- X-RETABI and the other pre-1.4.0 rows beyond their shape predicates; the cheatcode, taint and
  external-call detectors: their hits are parameters of the decision.
- The index of functions along the base chain and the reading of their references: the
  minimality search starts from them.
- Duplicate annotation and minimality notes in the evidence: advisory, no
  effect on verdict or lane.
- Concurrency in the cache: each locked region is one step.
- The partial-file cleanup of the cache's disk write: a write either publishes the entry or
  leaves the disk unchanged.
- The order in which the minimality search iterates over a function's references: list order
  here, set order in the source, with no effect on the result.
- Storage.ParseStorageMap: reads `int()` on optionally signed ASCII digits only, because
  underscores and other scripts' digits never occur in a printed dump.
- Register.SemverTuple: counts a version part with underscores or other scripts' digits as
  garbage, for the same reading of `int()`.
- Unescape.UnescapeLeanRepr: reads plain hexadecimal digits between the braces, without the
  signs, blanks, underscores and 0x prefix `int(h, 16)` also takes; Lean emits none of them.
- CoverageGuard.RunGate: takes the hits of all rows but X-ASM and X-IMPORT as a parameter,
  because those detectors are heuristic and have no specification to prove.
- AdjudicateProofs.RaisedExactly: covers what the claim's JSON causes while the tools answer or
  fail as `Adjudicate.World` says. A tool failing outside its guarded call, a claim file that
  is not UTF-8, hex text of odd length or with blanks, and the interpreter's own limits
  (recursion depth, digits of an integer, memory) are not part of this model.
- AdjudicateProofs.NonInterference: the feature slug and the seen version are text here; the
  source takes any JSON value, comparing the one and printing the other.
- CoverageGuard.GuardExactly: a domain is a set of scalars, a parameter. Python also finds 0 and
  1 in the boolean domains, which such a set would list as further scalars.
