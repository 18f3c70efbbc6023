# Symbols, references and file store of the TypeScript language-server extension

This project models, in Dafny, the self-contained logic of an extension of the
JavaScript/TypeScript language server that answers a "full document" request
with the file's symbols and the references of its identifiers:

- **Positions** (`src/document-symbols.ts`, namespaces `Position` and `Range`):
  the order on LSP positions, `Min`/`Max` over a list of positions, and the
  intersection of two ranges.
- **DocumentSymbols** (`src/document-symbols.ts`): the recursive walk
  `collectDocumentSymbolsInRange` over a TypeScript navigation tree and its
  driver `collectDocumentSymbols`, which build the `DocumentSymbol` hierarchy.
  The pure specification is the pair of functions `Walk`/`WalkChildren`
  (what one call returns and pushes) and `TopLevel`; the methods follow the
  source's loops (`continue`, `break`, the shared `children` list) and are
  proved equal to them.
- **ReferenceCategories** (`packages/lsp-extension/src/lsp-extension.js`): the
  JavaScript enum object, with its forward (name to number) and reverse
  (number to name) entries, built by the initialiser from `{}` or from an
  existing object.
- **LspExtend** (`src/lsp-extend.ts`): the response datatypes (`Full`,
  `Reference`, `DetailSymbolInformation`, `FullParams`) and JSON-patch
  operations.
- **ExtendedTypescriptService** (`src/extended-typescript-service.ts`):
  `textDocumentFull` and `_getDetailSymbol` over an abstract parser: the
  symbol stream, the reference stream with per-identifier error containment,
  and their zip into two patch operations.
- **MemFs** (`src/memfs.ts`): `PatchedInMemoryFileSystem` as a class with an
  overlay map, a file cache, a log, a constant library map and a fixed root URI.

The compiler and library functions the core calls are inputs, held as
function-valued fields of `DocumentSymbols.Env` and
`ExtendedTypescriptService.Service`: `ts.getLineAndCharacterOfPosition`,
`navigationTreeIsSymbol`, `stringtoSymbolKind`, `navigationTreeToSymbolInformation`,
`getDefinitionAtPosition`, `definitionInfoToSymbolDescriptor`,
`_getPackageDescriptor`, `locationUri`, `path2uri`, and the chain
`normalizeUri`/`uri2path`/`getConfiguration`/`_getSourceFile` that yields the
source file. The parser's navigation-tree walk and AST walk are lists inside
`SourceFile`. The disk read of `readFile` is a parameter.

The published protocol types in packages/lsp-extension/src/lsp-extension.d.ts:15-55
declare more than the server fills in. The server imports its own types from
src/lsp-extend.ts:3-36 instead, and the model follows those and the code:
- `FullParams` has no `reference` flag (declared at lsp-extension.d.ts:17), and references are always computed.
- Symbols carry no `qname` or `package` (lsp-extension.d.ts:22, 25), and their hover contents are
  the constant plain text `test`.
- A `Reference` carries a `symbol` (`SymbolInformation`) and no `target`
  locator (lsp-extension.d.ts:53-54). Its `symbol.location` is a zero-width range at the *use's*
  start, with the definition's file path as URI.
- Without a source file the response still has two operations, with both
  lists empty.

## Model

| member | source | states |
|---|---|---|
| Positions.IsBefore | src/document-symbols.ts:21-29 | holds exactly when the first position is strictly before the second in lexicographic (line, character) order |
| Positions.IsBeforeOrEqual | src/document-symbols.ts:47-55 | holds exactly when the first position is lexicographically before the second or equal to it |
| Positions.IsAfter | src/document-symbols.ts:44-46 | `isAfter(a, b)` holds exactly when `b` is strictly before `a` |
| Positions.IsBeforeStrictTotalOrder | src/document-symbols.ts:21-29 | `isBefore` is irreflexive, transitive, asymmetric and total on distinct positions |
| Positions.MinOf | src/document-symbols.ts:9-20 | `undefined` exactly for no argument; otherwise one of the arguments, and no argument is strictly before it |
| Positions.MaxOf | src/document-symbols.ts:32-43 | `undefined` exactly for no argument; otherwise one of the arguments, and no argument is strictly after it |
| Positions.MinOfUnique | src/document-symbols.ts:9-20 | any argument that no argument is strictly before is what `Min` returns |
| Positions.MaxOfUnique | src/document-symbols.ts:32-43 | any argument that no argument is strictly after is what `Max` returns |
| Positions.Min | src/document-symbols.ts:9-20 | the pop-last-then-scan loop returns `MinOf` of its arguments |
| Positions.Max | src/document-symbols.ts:32-43 | the pop-last-then-scan loop returns `MaxOf` of its arguments |
| Positions.LaterIsMax | src/document-symbols.ts:60 | the two-argument `Max(other.start, one.start)` used by `intersection` is the later of the two starts |
| Positions.EarlierIsMin | src/document-symbols.ts:61 | the two-argument `Min(other.end, one.end)` used by `intersection` is the earlier of the two ends |
| Positions.Intersection | src/document-symbols.ts:59-69 | `undefined` exactly when some start is strictly after some end; otherwise starts at one of the starts, ends at one of the ends, and lies within both ranges |
| Positions.IntersectionCommutes | src/document-symbols.ts:59-69 | the intersection does not depend on the order of its arguments |
| Positions.TouchingRangesIntersect | src/document-symbols.ts:62-68 | well-formed ranges that only touch give the empty range at the touching point, not `undefined` |
| Positions.DisjointRanges | src/document-symbols.ts:62-67 | well-formed ranges give `undefined` exactly when one ends strictly before the other starts |
| DocumentSymbols.AsRangeWellFormed | src/document-symbols.ts:72-77 | when the offset-to-position map keeps the order of offsets, a span's range never ends before it starts, and an empty span gives an empty range |
| DocumentSymbols.FirstHitFrom | src/document-symbols.ts:96-100 | the span chosen, if any, is one of the node's spans |
| DocumentSymbols.FirstHitFromSpec | src/document-symbols.ts:96-100 | the span chosen meets the search range and every earlier span misses it; no span is chosen only when every span misses |
| DocumentSymbols.WalkChildrenIncluded | src/document-symbols.ts:103-110 | the children loop reports a kept child exactly when some child with a span meeting the chosen span was itself kept |
| DocumentSymbols.WalkPushesAtMostOne | src/document-symbols.ts:96-131 | one call pushes at most one entry (only the first intersecting span is processed, because of the `break`), and that entry is the node's own, built within the first intersecting span from the children collected there |
| DocumentSymbols.WalkInclusion | src/document-symbols.ts:94-134 | an entry is pushed exactly when a span meets the range and the node is a symbol or a visited child was kept; the call returns `true` exactly when the node is a symbol or such a child exists |
| DocumentSymbols.WalkEntry | src/document-symbols.ts:111-128 | a pushed entry has the node's text, empty detail, the node's kind, as range the positions of the chosen span's first offset and of the offset just past it, the name span's range as selection range when it meets the chosen span and the span's range otherwise, and the children collected within the span |
| DocumentSymbols.VisitedChildHasSpan | src/document-symbols.ts:105-106 | a child is only walked within a range one of its spans meets, so inside the tree a span is always chosen |
| DocumentSymbols.WalkChildrenPushed | src/document-symbols.ts:102-110 | the children list holds at most one entry per child, each the entry of a child walked within the chosen span |
| DocumentSymbols.CollectDocumentSymbolsInRange | src/document-symbols.ts:92-135 | the loop with `continue` and `break` returns `Walk`'s verdict and appends exactly `Walk`'s entries to the caller's list |
| DocumentSymbols.CollectDocumentSymbols | src/document-symbols.ts:80-90 | the result is the concatenation, over the root's children in order, of what walking each child pushes within its item range (from the start of its first span to the end of its last span, as at line 84) |
| DocumentSymbols.TopLevelEntries | src/document-symbols.ts:80-90 | the result has at most one entry per child of the root, each the entry pushed by walking that child within the range from its first span's start to its last span's end |
| DocumentSymbols.TopLevelIgnoresRoot | src/document-symbols.ts:80-87 | the root's own text, kind, spans and name span do not affect the result: the root itself never gets an entry |
| ReferenceCategories.DigitKey | packages/lsp-extension/src/lsp-extension.js:5-9 | a category number below ten becomes the one-character property key that is its decimal digit, as JavaScript converts a number used as a key |
| ReferenceCategories.ForwardValues | packages/lsp-extension/src/lsp-extension.js:5-9 | UNCATEGORIZED=0, READ=1, WRITE=2, INHERIT=3, IMPLEMENT=4 |
| ReferenceCategories.ReverseValues | packages/lsp-extension/src/lsp-extension.js:5-9 | the reverse entries send 0..4 to the names in the same order |
| ReferenceCategories.TableKeys | packages/lsp-extension/src/lsp-extension.js:5-10 | built from `{}`, the object has exactly the five names and the five digit keys |
| ReferenceCategories.DeclarationOrder | packages/lsp-extension/src/lsp-extension.js:5-9 | the number of each member is its position in the declaration order of packages/lsp-extension/src/lsp-extension.d.ts:28-34, so the values are distinct and consecutive from 0 |
| ReferenceCategories.NameValueName | packages/lsp-extension/src/lsp-extension.js:5-9 | name to value to name is the identity on the five names |
| ReferenceCategories.ValueNameValue | packages/lsp-extension/src/lsp-extension.js:5-9 | exactly 0..4 have a name, and value to name to value is the identity on them |
| ReferenceCategories.InitialiseIdempotent | packages/lsp-extension/src/lsp-extension.js:10 | running the initialiser on the object it built yields the same object |
| ReferenceCategories.InitialiseKeepsOtherKeys | packages/lsp-extension/src/lsp-extension.js:10 | an existing `exports.ReferenceCategory` is reused: its other properties survive |
| ExtendedTypescriptService.IdentifierDefinitions | src/extended-typescript-service.ts:77-83 | a node yields definitions only if it is an identifier whose lookup at `pos + 1` returned that non-null list; conversely an identifier whose lookup returned a list yields exactly that list |
| ExtendedTypescriptService.MakeReference | src/extended-typescript-service.ts:94-122 | category UNCATEGORIZED; location in the requested file's URI from `pos` to `end`; symbol named as the definition's descriptor, located at its file path in a zero-width range at the use's start |
| ExtendedTypescriptService.TextDocumentFull | src/extended-typescript-service.ts:145-151 | exactly two operations: `add ''` of the empty array, then `add '/-'` of a `Full` whose two lists are never `null` and are the symbol list and the reference list of the request's source file |
| ExtendedTypescriptService.NoSourceFileGivesEmptyLists | src/extended-typescript-service.ts:47-50 | without a source file, the response's two lists are empty lists, not `null` |
| ExtendedTypescriptService.SymbolsExactly | src/extended-typescript-service.ts:28-58 | there are exactly as many symbols as navigation entries passing `navigationTreeIsSymbol`, and a symbol occurs exactly when some passing entry has it as its converted `symbolInformation`, with plain-text contents `test` |
| ExtendedTypescriptService.SymbolAt | src/extended-typescript-service.ts:52-58 | each passing entry's symbol sits at the position that counts the passing entries before it, so the filter-then-map keeps every passing entry once and in walk order |
| ExtendedTypescriptService.ReferencesOfAppend | src/extended-typescript-service.ts:73-141 | the references of two node lists in sequence are the references of each, in sequence |
| ExtendedTypescriptService.ReferencesExactly | src/extended-typescript-service.ts:77-122 | a reference is in the list exactly when it is built from an identifier node and one of the definitions its lookup returned |
| ExtendedTypescriptService.ReferenceAt | src/extended-typescript-service.ts:80-122 | the `j`-th definition returned for the `i`-th node gives its own reference, after the references of the definitions of earlier nodes, so no (node, definition) pair is dropped or merged |
| ExtendedTypescriptService.ReferenceCount | src/extended-typescript-service.ts:84-122 | there are exactly as many references as definitions returned for identifiers |
| ExtendedTypescriptService.ThrowingLookupIsSkipped | src/extended-typescript-service.ts:78-139 | an identifier whose lookup throws contributes nothing, and the rest contribute exactly what they would without it |
| ExtendedTypescriptService.SymbolsIgnoreLookup | src/extended-typescript-service.ts:41-60 | the symbol list does not depend on the definition lookup, so lookup failures cannot reduce it |
| ExtendedTypescriptService.ReferencesIgnorePackage | src/extended-typescript-service.ts:85-93 | the package descriptor attached to each symbol descriptor never reaches the response |
| ExtendedTypescriptService.LookupFailuresExactly | src/extended-typescript-service.ts:123-131 | a failure is logged, with the file name and offset `pos + 1`, exactly for each identifier whose lookup throws |
| MemFs.IndexFrom | src/memfs.ts:33 | the search from `i` finds the first occurrence at or after `i`, or -1 when there is none |
| MemFs.IndexOf | src/memfs.ts:33 | `indexOf` is -1 exactly when the string does not occur; otherwise the first index where it occurs |
| MemFs.PatchedInMemoryFileSystem.constructor | src/memfs.ts:13-17 | the root URI is `path2uri` of the workspace path; overlay, cache and log start empty |
| MemFs.PatchedInMemoryFileSystem.Add | src/memfs.ts:32-38 | a URI under the root URI, or containing `node_modules/typescript`, is cached with its content; any other leaves the store unchanged and logs `File <uri> out of root path` |
| MemFs.PatchedInMemoryFileSystem.ReadFileIfExistsOverwrite | src/memfs.ts:45-62 | the overlay at the path's URI, then the cache at that URI, then the library at the path: the first defined value wins, and the result is `undefined` only when all three miss |
| MemFs.PatchedInMemoryFileSystem.ReadFile | src/memfs.ts:19-30 | a hit returns the stored content and changes nothing; on a miss the disk content is returned and handed to `add` under the path's URI, after which the lookup hits exactly when `add` accepted a defined content |
| MemFs.ReadTwice | src/memfs.ts:19-33 | a file accepted by `add` and found on disk is read from disk once: the second read returns the same content whatever the disk holds by then |

## Left out

- `collectDocumentSymbols` with `flatten = true`: the source then passes its own result list as the `children` of each entry it pushes (src/document-symbols.ts:102, 126), which is a cyclic structure; only the default `flatten = false` is modelled.
- DocumentSymbols.CollectDocumentSymbolsInRange: the caller's `symbols` array, which the source pushes into in place, is passed in and returned as a value; aliasing of that array is not modelled (it only matters with `flatten = true`).
- DocumentSymbols.CollectDocumentSymbols: requires every top-level item to have a span, because the source reads `spans[0]` and `spans[length - 1]` unguarded and would fail on an item without spans.
- The compiler and library calls listed above are uninterpreted inputs; `ts.getLineAndCharacterOfPosition` is any offset-to-position map, so no property depends on it being monotone.
- Only `getDefinitionAtPosition` is modelled as able to throw. The `try` covers the synchronous lookup `config.getService().getDefinitionAtPosition(...)` and the construction of the `Observable.from(...).mergeMap(...).map(...)` chain; the `mergeMap`/`map` callbacks that call the other collaborators (`definitionInfoToSymbolDescriptor`, `_getPackageDescriptor`) run after the `try` has been left. An error there, or in `ensureReferencedFiles` or `getConfiguration`, would end the whole observable. That is not modelled.
- `_getPackageDescriptor` is taken to emit at most one descriptor (`defaultIfEmpty(undefined)` supplies the missing one); an observable emitting several would yield several references per definition.
- Stream scheduling: `mergeMap` fixes no order. The model lists references in AST order, then definition order. `ReferenceAt` states positions in that order; only what it implies about multiplicity (each node and definition pair gives one reference) carries over to the source's unordered stream.
- Logging: `textDocumentFull` logs through the logger and the tracing span. Only the failed lookups' (file, offset) pairs are modelled. In `PatchedInMemoryFileSystem`, `add`'s refusal message is modelled as an appended string.
- `PatchedInMemoryFileSystem`: the parent `InMemoryFileSystem` is not part of this model. Its constructor is taken to start with empty maps, and its `add` to store the content, possibly `undefined`, into `files`. Its directory tree is not modelled.
- `join('node_modules', 'typescript')` is taken with the POSIX separator; the Windows form is not modelled.
- The disk read `ts.sys.readFile` is the parameter `disk`; `readFile` returns its result, `undefined` included, as the source's `content!` does.
- The dependency manager (src/dependency-manager.ts) only spawns a package-manager subprocess and logs; it is I/O and not modelled.
- The test helpers' expectations (qualified names, location rewriting, a definition request) come from code that is not part of this model, so they are not modelled.
