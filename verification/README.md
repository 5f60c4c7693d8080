# A verified model of g8e's source analyser, tree digest and client codecs

Dafny models of the self-contained algorithms of g8e, with proofs that each fast or imperative
form does what its simple specification says, on all inputs. `dafny verify dfyconfig.toml` checks
everything.

**The Go source analyser** (`scripts/audit-dev-guidelines.py`). A tokenizer blanks comments and
strings in place (`GoLexer`, with what it matches spelt out in `GoMatches`); a stack pairs
delimiters (`Delimiters`), which is shown to be recursive matching (`Nesting`); a cursor walk finds
function bodies (`GoDeclarations`); a first-occurrence renaming gives a body its canonical form
(`GoNormalize`, `FirstOccurrence`); fingerprints and name counts are collected per file and across
files (`GoFunctions`, `Audit`); linear grouping reports clones (`CloneReport`), and a run over a
list of files, or of their texts, puts it together (`AuditRun`, `AuditText`). The main results:
equal canonical forms are exactly alpha-equivalence, grouping is exactly the all-pairs comparison,
and a helper is reported unused exactly when nothing outside it names it.

**The canonical source-tree digest** (`internal/buildinfo/treehash.go`). Component-wise path order
(`PathOrder`), in-place sort and NUL-delimited stream (`TreeDigest`), pruned walk (`SourceTree`),
manifest entries (`CleanPath`, `SourceManifest`) and what the digest depends on
(`ManifestProperties`). The main results: the hashed stream is canonical and injective, pruning is
filtering, and only the set of covered files matters.

**The browser client** (`examples/external-console/app.js`). The base64url codec (`Base64Url`) and
the reconnecting event stream, as a class over event sources and timers (`SseClient`) that refines
a state machine (`SseModel`) whose runs are characterised.

**JSON Pointer** (`JsonPointer`, RFC 6901), **SPIFFE identities** (`Spiffe`), **operator roles**
(`OperatorRoles`, `RoleConfig`) and **the governed event registry** (`GovernedRegistry`).

Reading conventions. Strings are sequences of code points; comparing them orders strings as Go
compares their UTF-8 bytes, and U+0000 is the only code point whose encoding contains a zero byte.
`json.dumps` of a list of strings is injective, so fingerprints keep the lists themselves. The
classes `\w`, `\d` and `\s` beyond ASCII are parameters of the lexer. SHA-256 and
`filepath.Match` are parameters; a file stands for the hash of its content, and paths use `/`. A file
system is an immutable snapshot, in which sibling names are distinct, non-empty, slash-free and neither `.`
nor `..` (`SourceTree.WellNamed`). `btoa` and `atob` follow the WHATWG forgiving-base64 algorithms. A
map's iteration order is a parameter. A logout is `SetSignedIn(false)` followed by
`DisconnectSSE(false)`, an expired session the same with `true`.

Where a promise turned out not to hold as it stands, the code is kept and the exact condition is
proved:

- The text between recorded braces need not be balanced when the file is not
  (`Nesting.PairInteriorMayBeUnbalanced`); it is exactly when every opener in it was recorded
  (`Nesting.PairInterior`).
- The related lists of the clone report are not symmetric (`CloneSamples.SamplesNotSymmetric`): of two
  clones one alone lists the other, exactly when just one of them has a duplicate
  (`CloneReport.RelatedSymmetricIff`).
- A pattern that matches `.` prunes a walk at its base, so nothing is collected, although the files'
  own keys need not match (`SourceTree.DotPatternLosesFile`); from any other start, and from the base
  without such a pattern, pruning is filtering (`SourceTree.PruningIsFiltering`,
  `SourceTree.BaseWalkIsFilteringIff`).
- The comment above `walkDir` says excluded paths are skipped, but a symbolic link whose own name is
  excluded is still rejected (`SourceTree.ExcludedLinkRejected`), exactly when no component above it
  is excluded (`SourceTree.LinkSkippedIff`).
- The comment above `ComputeSourceManifestHash` says entries that are links are rejected, but a link in
  the middle of an entry is followed (`ManifestProperties.MiddleLinkFollowed`); a lookup follows none
  exactly when no strict prefix of the entry is a link (`ManifestProperties.NoLinkFollowedIff`). The
  digest still depends only on the files covered.
- It also says entries that do not exist or are links are rejected; an excluded entry is passed over all
  the same (`ManifestProperties.ExcludedEntryPassesOver`). Such an entry is rejected exactly when it is not
  excluded (`ManifestProperties.BadEntryRejectedIff`).
- A manifest `["."]` skips where the single-directory form rejects, when the base is a link and `.`
  is excluded, and only then do the digests differ (`ManifestProperties.DotManifestIsTree`,
  `ManifestProperties.DotDigestIsTreeDigest`).
- If entries give one key two digests the stream depends on the unstable sort
  (`TreeDigest.StreamDeterminedIff`); manifests never do (`ManifestProperties.ManifestConsistent`).
- `strconv.Atoi` accepts index spellings RFC 6901 forbids, `01`, `+1` and `-0` among them
  (`JsonPointer.LooseIndices`); an accepted spelling conforms exactly when it begins with a digit, and
  with `0` only if that is all (`JsonPointer.AcceptedIndexConformsIff`).
- A printed path need not fail where walking it does, since a token does not say whether it is a name
  or an index (`JsonPointer.AmbiguousName`); the two agree exactly when no step is ambiguous
  (`JsonPointer.ResolvesAsWalkedIff`).
- A SPIFFE printer of several ids is not injective when they may contain slashes
  (`Spiffe.SlashesCollide`). An identity is that of no other ids exactly when its class has one id, as
  users and gateways have, or its ids are free of slashes (`Spiffe.PrintsAloneIff`).
- An event named by the empty string makes the choice of a request event depend on the iteration
  order (`GovernedRegistry.PromiseIff`), and a chosen event of the empty action does not validate
  (`GovernedRegistry.ChosenValidatesIff`).
- Effective roles survive being fed back through a loader exactly when they agree with it about
  `embedded` (`RoleConfig.LoadFixedPoint`, `RoleConfig.LoadGatewayFixedPoint`).

## Model

| member | source | states |
|---|---|---|
| `GoLexer.Source.Lex` | scripts/audit-dev-guidelines.py:333-375 | One pass leaves in `tokens`, `clean` and `mask` exactly the tokens of the matches that tile the text, and the text with comments (and, in `mask`, strings) blanked; the state before and after is stated in full. |
| `GoLexer.Source.Collect` | scripts/audit-dev-guidelines.py:370-374 | Collecting one match keeps the token list complete and in order, and numbers its line 1 plus the newlines before it. |
| `GoLexer.BlankSlice` | scripts/audit-dev-guidelines.py:366-369 | In-place slice assignment blanks exactly the slice, newlines excepted, and nothing else. |
| `GoLexer.BlankMatch` | scripts/audit-dev-guidelines.py:366-369 | Blanking the match at hand extends the blanked region by exactly that match. |
| `GoLexer.MatchAt` | scripts/audit-dev-guidelines.py:295-300 | A match begins at every position and is never empty, so the pattern leaves no character over. |
| `GoLexer.Cover` | scripts/audit-dev-guidelines.py:295-300 | The matches tile the text: every position lies in a match that begins at a boundary of the scan. |
| `GoLexer.CoverUnique` | scripts/audit-dev-guidelines.py:295-300 | Only one match covers a position: the tiles do not overlap. |
| `GoLexer.QuotedIff` | scripts/audit-dev-guidelines.py:297 | The scan for a closing quote succeeds with an end exactly when the quoted-string expression matches up to it; the match is unique, so backtracking changes nothing. |
| `GoLexer.FirstPairIff` | scripts/audit-dev-guidelines.py:296 | The lazy block-comment pattern ends at the first closing pair and at no other. |
| `GoLexer.RunIff` | scripts/audit-dev-guidelines.py:298-299 | A greedy class run is the longest one and only that. |
| `GoLexer.TokensWellLexed` | scripts/audit-dev-guidelines.py:295-300 | A token's first character tells a name from everything else; what body normalization relies on. |
| `GoLexer.TokensUnique` | scripts/audit-dev-guidelines.py:354-375 | The text determines its tokens: no two lists are what the scan yields. |
| `GoLexer.BlankingKeepsLines` | scripts/audit-dev-guidelines.py:500-507 | `clean` and `mask` keep the length and every newline position, so counting newlines before a match offset in them names the right source line. |
| `GoLexer.DelimiterTokensAreMasked` | scripts/audit-dev-guidelines.py:293-294 | Braces in comments and strings never reach function extraction: the delimiter tokens are exactly the delimiter characters that survive masking. |
| `GoMatches.CommentIff` | scripts/audit-dev-guidelines.py:296 | A comment is two slashes to the end of the line, or a slash and a star to the first star and slash, and nothing else is. |
| `GoMatches.TextIff` | scripts/audit-dev-guidelines.py:297 | A string is what stands between two backquotes, or between two double or two single quotes with backslash escapes, so a rune literal is one token; nothing else is a string. |
| `GoMatches.NameIff` | scripts/audit-dev-guidelines.py:298 | A name is an ASCII letter or underscore and all the word characters after it. |
| `GoMatches.NumberIff` | scripts/audit-dev-guidelines.py:298 | A number is a digit and all the word characters and dots after it. |
| `GoMatches.SpaceIff` | scripts/audit-dev-guidelines.py:299 | Space is a longest run of space characters. |
| `GoMatches.OperatorIff` | scripts/audit-dev-guidelines.py:299 | Everything else is an operator, of two characters exactly for the ten listed pairs; an unclosed quote or comment begins with one. |
| `GoMatches.BlankedIs` | scripts/audit-dev-guidelines.py:366-369 | Character by character: comments are blank in both texts and strings in the mask, newlines excepted, and the rest stands. |
| `GoMatches.NewlinesCount` | scripts/audit-dev-guidelines.py:375 | The line count is the number of newlines. |
| `Delimiters.PairDelimiters` | scripts/audit-dev-guidelines.py:692-701 | For every token sequence, ill-formed ones included, the stack loop records exactly the pairs of the depth specification: an opener, the closer that brings the depth back, same shape. |
| `Delimiters.TopIsPopped` | scripts/audit-dev-guidelines.py:698-699 | A closer pops the opener at nesting depth zero before it, and only that one. |
| `Delimiters.PopPairs` | scripts/audit-dev-guidelines.py:698-701 | Popping keeps the recorded pairs exact, and never overwrites one. |
| `Delimiters.PopsUnique` | scripts/audit-dev-guidelines.py:694-701 | An opener has one closer and a closer one opener. |
| `Delimiters.Laminar` | scripts/audit-dev-guidelines.py:694-701 | Any two pairs are disjoint or nested. |
| `Nesting.PopsAreTwins` | scripts/audit-dev-guidelines.py:692-701 | Inside anything that reads as a tree, the stack pops exactly what recursive matching pairs, whatever stands around it. |
| `Nesting.StackIsRecursiveMatching` | scripts/audit-dev-guidelines.py:692-701 | On balanced input every opener is recorded and the pairs are those of recursive matching, in both directions. |
| `Nesting.Parse` | scripts/audit-dev-guidelines.py:692-701 | Text whose depth never goes below zero and returns to zero reads as a tree. |
| `Nesting.PairInterior` | scripts/audit-dev-guidelines.py:700-701 | Between the ends of a recorded pair the text nests; it is balanced exactly when every opener in it was recorded too. |
| `Nesting.PairInteriorMayBeUnbalanced` | scripts/audit-dev-guidelines.py:700-701 | The unconditional claim is false: on `{ ( ] }` the braces are recorded around unbalanced text. |
| `GoDeclarations.FindBody` | scripts/audit-dev-guidelines.py:717-728 | The result walk terminates on every token sequence and stops at the one brace the declaration grammar allows, or at none. |
| `GoDeclarations.FindHead` | scripts/audit-dev-guidelines.py:703-715 | The scan accepts a receiver, name and type parameters exactly as the grammar has them. |
| `GoDeclarations.FindHeader` | scripts/audit-dev-guidelines.py:702-731 | From a `func` token the scan finds the declaration standing there whenever there is one, and reports nothing otherwise. |
| `GoDeclarations.ItemsReachOneBrace` | scripts/audit-dev-guidelines.py:718-728 | The result walk can reach one opening brace only. |
| `GoDeclarations.ItemsCloseTheirGroups` | scripts/audit-dev-guidelines.py:718-728 | Braces of struct and interface types and of groups never pass for the body: every group opened along the results, at any depth, is closed before the brace the walk reaches. |
| `GoDeclarations.BodyFollowsNoType` | scripts/audit-dev-guidelines.py:717-729 | The brace taken for the body never follows `struct` or `interface`. |
| `GoDeclarations.TypeResultSkipped` | scripts/audit-dev-guidelines.py:717-729 | A declaration with a struct or interface type among its results is found, with the braces after the type's for its body. |
| `GoDeclarations.CloserToken` | scripts/audit-dev-guidelines.py:694-701 | A recorded pair is of round, square or curly brackets, one opening and one closing. |
| `GoDeclarations.DeclaresUnique` | scripts/audit-dev-guidelines.py:702-731 | At most one declaration starts at a token. |
| `GoDeclarations.DeclaresOrder` | scripts/audit-dev-guidelines.py:702-732 | The parts of a found declaration stand in order and end in a recorded pair of braces. |
| `GoDeclarations.BodyNests` | scripts/audit-dev-guidelines.py:729-732 | The body between those braces is nested text, balanced exactly when every opener in it was recorded. |
| `GoNormalize.Normalize` | scripts/audit-dev-guidelines.py:733-747 | The one-pass renaming loop computes the first-occurrence canonical form and the plain values. |
| `GoNormalize.WhatIsKept` | scripts/audit-dev-guidelines.py:736-747 | Selectors, call targets, exported names, keywords and non-names come through unchanged; every other name becomes a generated id. |
| `GoNormalize.KeptOrNumbered` | scripts/audit-dev-guidelines.py:301-330 | With the keywords written out: what is left alone stands as it was, every other token is `id` and a numeral below the length. |
| `GoNormalize.NoCollision` | scripts/audit-dev-guidelines.py:736-747 | A literal `id3` kept because of its neighbours never coincides with a generated id of an equal canonical form. |
| `GoNormalize.CanonicalIffAlpha` | scripts/audit-dev-guidelines.py:732-747 | Two bodies have equal canonical forms exactly when they are alpha-equivalent: same length, same renameable positions, other tokens identical, one-to-one renaming. |
| `FirstOccurrence.RankStable` | scripts/audit-dev-guidelines.py:745 | The number a name gets at its first occurrence never changes. |
| `FirstOccurrence.RenamedSeen` | scripts/audit-dev-guidelines.py:745 | One-to-one renaming commutes with first-occurrence numbering. |
| `FirstOccurrence.SameGivesRenaming` | scripts/audit-dev-guidelines.py:745 | Equal renamed forms yield a one-to-one renaming of the originals. |
| `GoFunctions.CountNames` | scripts/audit-dev-guidelines.py:748-750 | The counter of a span counts each name token once. |
| `GoFunctions.BuildFunction` | scripts/audit-dev-guidelines.py:732-763 | A fingerprint holds the name, line, values, canonical form, name counts and flags of its declaration. |
| `GoFunctions.GoFunctionsOf` | scripts/audit-dev-guidelines.py:688-763 | The fingerprints of a non-test Go file are those of exactly its declarations, in order; any other file has none. |
| `Audit.ScanFiles` | scripts/audit-dev-guidelines.py:956-984 | Over all files every declaration is fingerprinted once, and references are counted per suffix over all files, tests included. |
| `Audit.CountIffInside` | scripts/audit-dev-guidelines.py:766-780 | Total count at most the span's count holds exactly when the name stands nowhere outside the span. |
| `Audit.UnusedIffNamedOnlyInside` | scripts/audit-dev-guidelines.py:770-780 | A private helper is reported unused exactly when every token naming it, in every file of its suffix, lies inside its own span. |
| `Audit.ReportUnused` | scripts/audit-dev-guidelines.py:770-780 | The findings are one for each helper that passes the counting test, in order. |
| `Audit.UnusedFindingsAre` | scripts/audit-dev-guidelines.py:770-780 | A finding is among them exactly when some function passes the test and it is that function's. |
| `Audit.StructuralFindings` | scripts/audit-dev-guidelines.py:766-802 | The report is the unused helpers followed by the clone findings, both exact. |
| `Audit.FunctionOrigin` | scripts/audit-dev-guidelines.py:976-980 | Every fingerprint comes from a declaration of a scanned Go file. |
| `CloneReport.Others` | scripts/audit-dev-guidelines.py:789-791 | The list of others in a group, and of exact ones, are the all-pairs partners in order. |
| `CloneReport.ReportClones` | scripts/audit-dev-guidelines.py:781-801 | Linear grouping gives the all-pairs answer: a function is reported, once, exactly when another substantial one shares suffix and canonical form, with the rule and related list that comparing all pairs gives. |
| `CloneReport.CloneFindingShows` | scripts/audit-dev-guidelines.py:791-801 | A clone finding shows path, line and name of its function, the name cut to 300 characters, and path, line and name of each partner. |
| `CloneReport.CloneFindingUnique` | scripts/audit-dev-guidelines.py:781-801 | What comparing all pairs says of a function determines its finding, the order of the related list included. |
| `CloneReport.DuplicatesListEachOther` | scripts/audit-dev-guidelines.py:790-799 | Exact duplicates list each other: the duplicate relation is symmetric. |
| `CloneReport.DuplicateHidesClones` | scripts/audit-dev-guidelines.py:792-797 | A function with exact duplicates lists only those. |
| `CloneReport.RenamedListsAll` | scripts/audit-dev-guidelines.py:792-797 | A function with clones but no exact duplicate lists every clone. |
| `CloneReport.RelatedNotSymmetric` | scripts/audit-dev-guidelines.py:792-797 | A renamed clone lists a function that lists only its own copy: the related lists as a whole are not symmetric. |
| `CloneReport.RelatedSymmetricIff` | scripts/audit-dev-guidelines.py:792-797 | Of two clones each lists the other or neither does, exactly when they are duplicates of one another, or both have a duplicate, or neither has. |
| `Audit.ClonesAreAlphaEquivalent` | scripts/audit-dev-guidelines.py:732-801 | Two Go functions are clones exactly when they are different, substantial and their bodies alpha-equivalent; duplicates exactly when the bodies also agree token for token. |
| `AuditRun.OriginsOf` | scripts/audit-dev-guidelines.py:956-984 | The fingerprints of a whole scan are those of the declarations of its non-test Go files, one for each, whatever the tokens of other files are. |
| `AuditRun.UnusedReportIff` | scripts/audit-dev-guidelines.py:766-780 | For scanned files: an unused-helper finding is reported exactly when it is that of a private Go declaration no token outside its span names, in any file of its suffix. |
| `AuditRun.UnusedInTokens` | scripts/audit-dev-guidelines.py:759-780 | In terms of tokens: an unused-helper finding is that of a declaration whose func is followed by a name from a to z, not a receiver, other than main and init, that no Go token outside the declaration is; it shows path, line and the name cut to 300 characters. |
| `AuditRun.CloneReportIff` | scripts/audit-dev-guidelines.py:781-801 | A clone finding is reported exactly when it is that of a function with a clone. |
| `AuditRun.ClonesAreTwins` | scripts/audit-dev-guidelines.py:732-801 | For scanned files: clones are exactly pairs of different declarations whose bodies have at least the minimum of tokens, on at least six lines, and are alpha-equivalent; duplicates also agree token for token. |
| `AuditRun.AuditFiles` | scripts/audit-dev-guidelines.py:956-994 | From scanned files to findings: exactly the unused helpers and the clone findings called for, told apart by their rule; the helpers as the tokens have them, the clones as alpha-equivalent declarations. |
| `CloneSamples.SamplesAreScanned` | scripts/audit-dev-guidelines.py:688-763 | Three Go files with one helper of sixty tokens on thirty lines each: their fingerprints are what scanning gathers. |
| `CloneSamples.SamplesNotSymmetric` | scripts/audit-dev-guidelines.py:792-797 | Two of the helpers are copies: the third lists both, the first only its copy. |
| `AuditText.LexedUnique` | scripts/audit-dev-guidelines.py:321-376 | The texts determine the lexed files the audit runs on. |
| `AuditText.AuditTexts` | scripts/audit-dev-guidelines.py:956-994 | From text to findings: for the tokens the texts have, exactly the unused private helpers, as their tokens show them, and the clone findings of the declarations are reported. |
| `PathOrder.LessPathParts` | internal/buildinfo/treehash.go:160-173 | The comparison loop decides the component-wise lexicographic order. |
| `PathOrder.PathLessStrictTotal` | internal/buildinfo/treehash.go:160-173 | The order is strict and total on path strings: only equal strings are incomparable. |
| `PathOrder.SubtreesContiguous` | internal/buildinfo/treehash.go:160-173 | Whatever sorts between two paths of a directory lies in that directory. |
| `TreeDigest.DirectoryAdjacent` | internal/buildinfo/treehash.go:140-173 | All files of a directory are adjacent in the sorted entries. |
| `PathOrder.NotStringOrder` | internal/buildinfo/treehash.go:160-163 | The order differs from plain string order where a name extends another with a dot. |
| `TreeDigest.SortEntries` | internal/buildinfo/treehash.go:144 | In-place sorting leaves some valid outcome of an unstable sort; callers use nothing more. |
| `TreeDigest.WriteEntries` | internal/buildinfo/treehash.go:145-156 | The writing loop emits key, NUL, digest, NUL for the first entry of each run of equal keys. |
| `TreeDigest.StreamIs` | internal/buildinfo/treehash.go:153-156 | Each entry adds its key, a zero byte, its digest and a zero byte. |
| `TreeDigest.SortedStreamCanonical` | internal/buildinfo/treehash.go:140-158 | Any order, any repetition and any valid outcome of the sort give the canonical stream of the map the entries denote. |
| `TreeDigest.CanonicalStreamUnique` | internal/buildinfo/treehash.go:140-158 | A map has only one canonical stream. |
| `TreeDigest.CanonicalStreamInjective` | internal/buildinfo/treehash.go:140-158 | For NUL-free keys and digests, different maps have different streams. |
| `TreeDigest.StreamDeterminedIff` | internal/buildinfo/treehash.go:143-158 | The stream is independent of the unstable sort exactly when no key is given two digests. |
| `TreeDigest.ConflictIsAmbiguous` | internal/buildinfo/treehash.go:143-158 | With two digests for one key, two valid sorts are written differently. |
| `TreeDigest.DigestEntries` | internal/buildinfo/treehash.go:143-158 | The digest is the hash of the stream of a valid sort, hence of the canonical stream whenever the entries denote a map. |
| `SourceTree.WalkDir` | internal/buildinfo/treehash.go:106-138 | The pruned walk delivers what filtering all leaves asks for: the first visible link as an error, or the wanted files appended in order. |
| `SourceTree.FailsIffLinkVisible` | internal/buildinfo/treehash.go:124-126 | The walk fails exactly when some symbolic link is not beneath an excluded directory, even if the link's own name is excluded. |
| `SourceTree.CollectsExactly` | internal/buildinfo/treehash.go:127-135 | Otherwise it collects precisely the regular files that are neither excluded nor beneath an excluded directory. |
| `SourceTree.MatchedNotCollected` | internal/buildinfo/treehash.go:175-186 | No file is collected whose path has a component that any pattern of the list matches. |
| `SourceTree.UnmatchedCollected` | internal/buildinfo/treehash.go:106-138 | Every regular file whose path no pattern matches, component by component, is collected by a walk that succeeds, if none matches `.`. |
| `SourceTree.PruningIsFiltering` | internal/buildinfo/treehash.go:118-129 | Skipping directories equals filtering files by key from every start but the base, and from the base unless `.` is excluded; from an excluded start nothing is collected. |
| `SourceTree.BaseWalkIsFilteringIff` | internal/buildinfo/treehash.go:106-138 | From the base, the walk of every tree is filtering exactly when `.` is not excluded, or every possible name is. |
| `SourceTree.DotPatternLosesFile` | internal/buildinfo/treehash.go:118-123 | Under the pattern `.` a file that survives filtering is not collected. |
| `SourceTree.LinkSkippedIff` | internal/buildinfo/treehash.go:118-126 | A link is skipped just when its key is excluded, exactly unless its last component alone is excluded; then it is rejected. |
| `SourceTree.ExcludedLinkRejected` | internal/buildinfo/treehash.go:118-126 | Under the pattern `l` the walk rejects a link l, though its key is excluded. |
| `SourceTree.PrunedIsExcluded` | internal/buildinfo/treehash.go:175-186 | Beneath a start that is not excluded, pruning takes away nothing the key filter would keep. |
| `SourceTree.KeyInjective` | internal/buildinfo/treehash.go:113-117 | Different paths have different keys. |
| `CleanPath.ValidIffPlain` | internal/buildinfo/treehash.go:188-199 | An entry is accepted exactly when it is `.` or all its components are plain names. |
| `CleanPath.CleanTwice` | internal/buildinfo/treehash.go:188-199 | Cleaning what is clean changes nothing, and keeps a path absolute or relative. |
| `SourceManifest.ComputeSourceTreeHash` | internal/buildinfo/treehash.go:38-54 | A base that does not resolve or is no directory gives the error for just that; otherwise the result is the error the walk owes, or the hash of a valid sort of the files it owes. |
| `SourceManifest.ComputeSourceManifestHash` | internal/buildinfo/treehash.go:56-104 | A base that does not resolve or is no directory gives the error for just that; otherwise the result is the first entry's error, or the hash of a valid sort of all entries' files. |
| `SourceManifest.AddEntry` | internal/buildinfo/treehash.go:69-101 | One entry contributes its files or the error its validation, lookup or walk calls for, in the code's order of checks. |
| `ManifestProperties.LeafFound` | internal/buildinfo/treehash.go:109-138 | What the walk lists under a key is what looking that path up finds. |
| `ManifestProperties.LookupErrorIs` | internal/buildinfo/treehash.go:76-83 | A lookup that fails says not a directory exactly when some strict prefix of the path is a file or leads to one; otherwise that the entry is missing. |
| `ManifestProperties.NoLinkFollowedIff` | internal/buildinfo/treehash.go:76-87 | A lookup that succeeds also succeeds without following links, with the same result, exactly when no strict prefix of the path is a link. |
| `ManifestProperties.MiddleLinkFollowed` | internal/buildinfo/treehash.go:76-87 | The entry `l/f`, where `l` is a link to a directory holding `f`, is accepted and hashed under its own key. |
| `ManifestProperties.ManifestMember` | internal/buildinfo/treehash.go:69-103 | A manifest fails exactly when one of its entries does; otherwise it collects their union. |
| `ManifestProperties.MatchedNotListed` | internal/buildinfo/treehash.go:69-103 | No file is in a manifest whose path has a component that any pattern of the list matches. |
| `ManifestProperties.UnmatchedListed` | internal/buildinfo/treehash.go:69-103 | Every regular file at or beneath an entry whose path no pattern matches is in a manifest that succeeds, if none matches `.`. |
| `ManifestProperties.ManifestConsistent` | internal/buildinfo/treehash.go:190-199 | Clean entries give each file one key: overlapping entries never give a key two digests. |
| `ManifestProperties.SameCoverSameDigest` | internal/buildinfo/treehash.go:56-104 | Manifests that collect the same files have the same digest. |
| `ManifestProperties.SameStreamSameFiles` | internal/buildinfo/treehash.go:56-104 | Manifests of two snapshots, under two exclusion lists, with the same hashed stream collect the same keys with the same digests: the stream tells trees apart. |
| `ManifestProperties.SameEntriesSameCover` | internal/buildinfo/treehash.go:69-103 | Reordering or repeating entries changes neither success nor the files collected. |
| `ManifestProperties.SameStreamSameCover` | internal/buildinfo/treehash.go:56-104 | On one snapshot, manifests with the same hashed stream cover the same files. |
| `ManifestProperties.EntryOkIff` | internal/buildinfo/treehash.go:69-101 | On a snapshot without links an entry succeeds exactly when it is valid and excluded or found. |
| `ManifestProperties.BadEntryRejectedIff` | internal/buildinfo/treehash.go:69-87 | On any snapshot, a valid entry that is missing or is a link is rejected exactly when it is not excluded. |
| `ManifestProperties.ExcludedEntryPassesOver` | internal/buildinfo/treehash.go:71-73 | Under the pattern `x` the entry `x` is passed over in an empty directory, and where it is a link. |
| `ManifestProperties.ManifestIsUnion` | internal/buildinfo/treehash.go:56-104 | On a snapshot without links a successful manifest collects exactly the union of the non-excluded regular files at or beneath its non-excluded entries. |
| `ManifestProperties.SameUnionSameDigest` | internal/buildinfo/treehash.go:56-104 | On a snapshot without links, valid entries that are there and together cover the same files give the same digest, however they are ordered, repeated or overlap. |
| `ManifestProperties.DotManifestIsTree` | internal/buildinfo/treehash.go:38-104 | The manifest `["."]` owes what the whole-tree form owes, exactly unless the base is a link and `.` is itself excluded. |
| `ManifestProperties.DotDigestIsTreeDigest` | internal/buildinfo/treehash.go:38-104 | The digests of the two forms are equal, with exactly that exception. |
| `Base64Url.BufferToBase64url` | examples/external-console/app.js:38-43 | The encoding loop computes the encoding of the bytes. |
| `Base64Url.AlphabetsAre` | examples/external-console/app.js:36-43 | The letters, digits and signs stand for the values RFC 4648 gives them, with `-` and `_` in the URL-safe alphabet. |
| `Base64Url.BitsAre` | examples/external-console/app.js:36-43 | Read as numbers, three bytes and their four sextets are equal, and so are fewer bytes and their sextets once filled with zeros. |
| `Base64Url.Base64urlToBuffer` | examples/external-console/app.js:29-36 | The decoding loop fills a fresh array with the decoded bytes, or fails when the decoding does. |
| `Base64Url.DecodeEncode` | examples/external-console/app.js:26-43 | Decoding the encoding of any bytes returns them. |
| `Base64Url.EncodeInjective` | examples/external-console/app.js:36-43 | Distinct byte sequences have distinct encodings. |
| `Base64Url.EncodeUrlSafe` | examples/external-console/app.js:42 | The encoding contains none of `+`, `/`, `=` and is as short as its bits allow. |
| `Base64Url.PaddingRestored` | examples/external-console/app.js:31-32 | The length rule restores exactly the padding that encoding stripped. |
| `Base64Url.PadForIs` | examples/external-console/app.js:31 | For text of every length the padding added fills the last group of four, with less than four characters. |
| `Base64Url.EncodeDecodeIff` | examples/external-console/app.js:26-43 | Encoding undoes decoding exactly on canonical text: URL alphabet, no padding, no leftover bits set. |
| `Base64Url.DecodeAcceptsIff` | examples/external-console/app.js:29-33 | Any text decodes exactly when, blanks and trailing `=` taken off, it is in the two alphabets, and its own padding and the one added for its full length are none or fill the last group. |
| `Base64Url.DecodePlainIff` | examples/external-console/app.js:29-33 | On text without blanks or padding, decoding fails exactly on a foreign character or a length one above a multiple of four. |
| `SseClient.Client.DisconnectSSE` | examples/external-console/app.js:450-466 | Disconnecting clears a pending timer, detaches and closes the source, and is the abstract step; the representation invariant is kept. |
| `SseClient.Client.OneConnection` | examples/external-console/app.js:450-527 | In every state the methods keep, at most one source has handlers attached, and a live source excludes a pending reconnect timer. |
| `SseClient.Client.ConnectSSE` | examples/external-console/app.js:468-486 | Connecting drops whatever was there, opens a fresh source resuming after the last id, and is the abstract step. |
| `SseClient.Client.OnOpen` | examples/external-console/app.js:483-486 | A source whose handler runs is the current one; opening resets the delay. |
| `SseClient.Client.OnMessage` | examples/external-console/app.js:488-512 | A message updates the last id and the bounded log, as the abstract step has it. |
| `SseClient.Client.OnError` | examples/external-console/app.js:514-526 | A closed error schedules one reconnect after exactly the current delay plus jitter and doubles the delay up to its cap; any other error only changes the badge. |
| `SseClient.Client.TimerFired` | examples/external-console/app.js:522-524 | A pending timer reconnects when somebody is signed in and otherwise leaves nothing under way. |
| `SseClient.Client.ClearEvents` | examples/external-console/app.js:923-926 | Clearing empties the log and changes nothing else. |
| `SseClient.Perform` | examples/external-console/app.js:450-527 | Whatever the browser does next, the page's fields take the abstract step, and the invariant is kept. |
| `SseClient.RunPage` | examples/external-console/app.js:450-527 | After any steps from loading, the page's fields are those of the abstract run: the last 500 rows, the last id, the capped backoff, and a live source that resumes after the last id before its opening. |
| `SseModel.LogIsTail` | examples/external-console/app.js:509-510 | Over every run the log is exactly the last 500 rows delivered since it was cleared. |
| `SseModel.Beginning` | examples/external-console/app.js:178-195 | Before the first step nothing is under way, the log is empty and the delay is one second. |
| `SseModel.LogInNumbers` | examples/external-console/app.js:510-511 | The log holds the last 500 rows delivered since it was cleared. |
| `SseModel.DelayIsBackoff` | examples/external-console/app.js:465-520 | Over every run, after k closed errors since the last open or manual disconnect, the delay is min(1000 * 2^k, 30000). |
| `SseModel.DelayInNumbers` | examples/external-console/app.js:519-520 | The delay is 1000 doubled for each failure since the last opening or manual disconnect, and at most 30000. |
| `SseModel.ResumesAfterLastId` | examples/external-console/app.js:475-489 | Over every run a live source was opened to resume after the last non-empty id delivered before. |
| `SseModel.StatusAlwaysAgrees` | examples/external-console/app.js:445-521 | Over every run the badge agrees with what is under way. |
| `SseModel.BadgeFollows` | examples/external-console/app.js:446-527 | Which badge follows each kind of step, and which steps change nothing at all. |
| `SseModel.StuckReconnecting` | examples/external-console/app.js:521-524 | The badge is left at reconnecting with nothing under way exactly by a timer firing while nobody is signed in. |
| `JsonPointer.EscapeIsEncode` | internal/jsonschema/jsonpointer.go:17-21 | Two passes of escaping equal one pass. |
| `JsonPointer.UnescapeIsDecode` | internal/jsonschema/jsonpointer.go:24-28 | Two passes of unescaping equal one left-to-right pass, on every string. |
| `JsonPointer.UnescapeEscape` | internal/jsonschema/jsonpointer.go:16-28 | Unescaping undoes escaping on every string. |
| `JsonPointer.EscapeUnescapeIff` | internal/jsonschema/jsonpointer.go:16-28 | Escaping undoes unescaping exactly on well-formed tokens. |
| `JsonPointer.EscapeNoSlash` | internal/jsonschema/jsonpointer.go:17-21 | An escaped token contains no slash. |
| `JsonPointer.ResolveJSONPointer` | internal/jsonschema/jsonpointer.go:33-65 | The resolving loop computes the resolution, with the code's errors. |
| `JsonPointer.OneTokenResult` | internal/jsonschema/jsonpointer.go:41-63 | What one token resolves to in an object, an array or any other value, and the error where it resolves to nothing. |
| `JsonPointer.AtoiIs` | internal/jsonschema/jsonpointer.go:52 | A run of digits is read as its number, with either sign, exactly when the number fits 64 bits. |
| `JsonPointer.PointerForm` | internal/jsonschema/jsonpointer.go:33-40 | The empty pointer is the whole value; any other is refused as invalid exactly when it does not begin with a slash. |
| `JsonPointer.ResolveConcat` | internal/jsonschema/jsonpointer.go:33-65 | Resolving p followed by q is resolving q in what p resolves to, failures propagating. |
| `JsonPointer.PrintedPathResolves` | internal/jsonschema/jsonpointer.go:33-65 | Every location of a value tree is reached by the pointer printed from its path. |
| `JsonPointer.FittingPathResolves` | internal/jsonschema/jsonpointer.go:33-65 | Resolving the pointer of a path whose names meet objects and indices arrays equals walking it, failure included. |
| `JsonPointer.ResolvesAsWalkedIff` | internal/jsonschema/jsonpointer.go:33-65 | Resolving equals walking at every depth of a path exactly when no index meets an object with a member spelt like it and no name that spells an index meets an array that has it. |
| `JsonPointer.AmbiguousName` | internal/jsonschema/jsonpointer.go:52-60 | The member name `0` resolves into an array, where walking fails. |
| `JsonPointer.LocatedIffResolved` | internal/jsonschema/jsonpointer.go:33-65 | A value stands somewhere in the tree exactly when some pointer resolves to it. |
| `JsonPointer.FollowedIsLocation` | internal/jsonschema/jsonpointer.go:41-63 | Whatever a pointer resolves to is a location at the depth of its tokens. |
| `JsonPointer.LooseIndices` | internal/jsonschema/jsonpointer.go:52-60 | The indices `01`, `+1` and `-0` are accepted, which RFC 6901 section 4 does not allow. |
| `JsonPointer.AcceptedIndexConformsIff` | internal/jsonschema/jsonpointer.go:52-60 | A token accepted at an array is the numeral of an index exactly when it begins with a digit, and with `0` only if that is all of it. |
| `Spiffe.PrintedForms` | protocol/workload_identity.go:31-44 | The four printed forms, in full. |
| `Spiffe.ExtractPrintIff` | protocol/workload_identity.go:31-44 | Extraction gives printed ids back exactly when each is non-empty and slash-free. |
| `Spiffe.PrintExtract` | protocol/workload_identity.go:141-229 | Whatever extraction accepts, printing its parts rebuilds. |
| `Spiffe.ExtractorsInvert` | protocol/workload_identity.go:141-229 | Each extractor answers with what its printer was given, exactly on plain ids. |
| `Spiffe.ExtractorsAccept` | protocol/workload_identity.go:172-229 | An extractor answers with an id exactly when it is plain and the identity is printed from it, and from plain ids before it. |
| `Spiffe.CliRebuilds` | protocol/workload_identity.go:110-170 | When the CLI extractors succeed, printing their answers rebuilds the identity; the session-only match holds exactly of identities of some user with that session. |
| `Spiffe.PrintsAloneIff` | protocol/workload_identity.go:31-44 | An identity is printed by no other ids, whatever they are, exactly when its class has one id or none of its ids contains a slash. |
| `Spiffe.PrintInjective` | protocol/workload_identity.go:31-44 | A printed identity of slash-free ids, or of the single id of a user or gateway, is that of no other ids. |
| `Spiffe.SlashesCollide` | protocol/workload_identity.go:31-44 | With slashes in the ids two different pairs print the same identity. |
| `Spiffe.OneClass` | protocol/workload_identity.go:141-229 | No identity is accepted by extractors of two classes. |
| `OperatorRoles.CanonicalRoles` | internal/constants/operator_roles.go:34-43 | The appending loop computes the canonical form. |
| `OperatorRoles.CanonicalIff` | internal/constants/operator_roles.go:34-43 | Two role lists have the same canonical form exactly when they have the same known roles. |
| `OperatorRoles.CanonicalIs` | internal/constants/operator_roles.go:34-43 | The canonical order is embedded, data, inference, provenance, observer. |
| `OperatorRoles.ValidIff` | internal/constants/operator_roles.go:23-32 | A list is valid exactly when each entry is one of the five names. |
| `OperatorRoles.RolesFlag.Set` | internal/constants/operator_roles.go:53-64 | A value is accepted exactly when all its trimmed parts are known roles; then the flag holds the canonical union, otherwise it is unchanged. |
| `OperatorRoles.OnlyTheUnionMatters` | internal/constants/operator_roles.go:53-64 | After any sequence of values only the union of the accepted ones matters, not order or repetition. |
| `OperatorRoles.AfterAllMembers` | internal/constants/operator_roles.go:53-64 | A role is in the result exactly when some accepted value asked for it, and the result is canonical. |
| `OperatorRoles.TrimSpaceIs` | internal/constants/operator_roles.go:57 | Blanks around a role name make no difference. |
| `OperatorRoles.SetOfString` | internal/constants/operator_roles.go:45-64 | Reading a printed set into an empty flag restores it, and is accepted exactly when it is not empty. |
| `OperatorRoles.KnownPlain` | internal/constants/status.go:99-105 | Role names are non-empty, comma-free and need no trimming. |
| `RoleConfig.EffectiveOperatorRoles` | internal/config/config.go:839-855 | The appending form computes the effective roles. |
| `RoleConfig.EffectiveIff` | internal/config/config.go:839-855 | A role is effective exactly when it is configured, its capability is enabled, or it is data and nothing else is there. |
| `RoleConfig.LoadIff` | internal/config/config.go:612-622 | Load refuses unknown roles and embedded; a role is then effective exactly when it is given, its flag is set, or it is data and there is nothing else. |
| `RoleConfig.LoadGatewayIff` | internal/config/config.go:454-467 | LoadGateway refuses unknown roles alone; embedded is then always effective, and data when no role is given. |
| `RoleConfig.CapabilitiesIff` | internal/config/config.go:546-651 | A capability is enabled by its role in either mode, and in operator mode by its flag too. |
| `RoleConfig.LoadFixedPoint` | internal/config/config.go:612-622 | Feeding the effective roles back through Load changes nothing exactly when they exclude embedded. |
| `RoleConfig.LoadGatewayFixedPoint` | internal/config/config.go:454-467 | Feeding them back through LoadGateway is accepted, and changes nothing exactly when they include embedded. |
| `RoleConfig.LoadersAreStable` | internal/config/config.go:454-855 | What either loader produces is a fixed point of that loader. |
| `GovernedRegistry.RequestEventForAction` | internal/constants/registry_governed.go:25-42 | The loop over the map, in any iteration order, computes the scan. |
| `GovernedRegistry.PromiseIff` | internal/constants/registry_governed.go:23-42 | For every iteration order the result is the smallest governed request event or an error when there is none, exactly when the empty string is not an event name serving the action. |
| `GovernedRegistry.EnvelopeIff` | internal/constants/registry_governed.go:63-72 | An envelope validates exactly when its event is a governed request for its action and the action has a name. |
| `GovernedRegistry.ServesIff` | internal/constants/registry_governed.go:14-42 | An event serves an action exactly when it is registered as a request for it with the transport `governed` listed. |
| `GovernedRegistry.ResultIff` | internal/constants/registry_governed.go:76-108 | A result is accepted exactly when its request is a governed request for its named action and its outcome is registered as an outcome, fact or stream and listed by the request, if the request lists any. |
| `GovernedRegistry.ResultErrors` | internal/constants/registry_governed.go:76-108 | Otherwise it is refused with the error of the request, for an unregistered outcome, or for one that is not allowed, in this order. |
| `GovernedRegistry.RequestErrors` | internal/constants/registry_governed.go:45-72 | An event that is no governed request is refused for the first condition that fails. |
| `GovernedRegistry.ChosenValidatesIff` | internal/constants/registry_governed.go:25-72 | The chosen event validates with its action exactly when the action has a name. |
| `GovernedRegistry.OutcomeIsNotRequest` | internal/constants/registry_governed.go:76-108 | No accepted outcome is itself a governed request. |

## Left out

- The Python side of the analyser (`ast`, `NormalizeBindings`, `tokenize`), the regular-expression
  rule table, `registry_entries`, the protocol alignment checks, and the final sort and removal of
  equal findings.
- Which files are scanned, skipped as generated, or unreadable: a run starts from the list of scanned
  texts. The tokens of a Python file are a parameter, and may be any; other files have none.
- GoDeclarations.Declares: the declaration grammar is the one the analyser accepts, not the grammar of
  Go; anonymous functions and bodiless declarations are not declarations to it.
- TreeDigest.SortEntries: an insertion sort stands for `sort.Slice`; its contract says only what any
  unstable sort does, and nothing else relies on how it sorts.
- SourceTree.WalkDir: errors while reading directories or files, and what `out` holds after an error
  (the callers discard it).
- SourceManifest.Lstat: a link stands for the tree it resolves to, so cycles of links are not
  represented, and a trailing slash on the base path is not either.
- Base64Url.Atob: the browser's own implementation, beyond the published algorithm.
- SseClient.Client.OnMessage: how an event is parsed into a row; a row is a parameter. The URL, its
  encoding, the buttons and all rendering.
- JsonPointer.Walk: paths carry indices a Go `int` can hold, and trees arrays of such lengths; longer
  slices do not exist in the program.
- Spiffe: the URL forms, and the application and hub identities, which have no extractor.
- OperatorRoles: `UnmarshalJSON`, which canonicalises a decoded list the way `Set` does a flag.
- RoleConfig.Load: the other fields of the configuration and the failures about paths and endpoints.
- `ResolveGatewayPorts`: a first-fit loop over availability, easy beside the rest.
- WebAuthn, fetch, the consoles and adapters, certificates, process control, and constant tables.
