/**
 * The response types of src/lsp-extend.ts, with the LSP types they are built
 * from, the `ReferenceCategory` enum of packages/lsp-extension, and the
 * JSON-patch operations the full-document request streams.
 */
module LspExtend {
  import opened Wrappers
  import opened Positions
  import opened ReferenceCategories

  /** `lsp.Location`. */
  datatype Location = Location(uri: string, range: Range)

  /** `lsp.SymbolInformation`; `kind` is the numeric LSP symbol kind. */
  datatype SymbolInformation = SymbolInformation(
    name: string,
    kind: nat,
    location: Location,
    containerName: Option<string>)

  /** `MarkupKind`. */
  datatype MarkupKind = PlainText | Markdown

  /** `MarkupContent`, the only form of hover contents the service builds. */
  datatype MarkupContent = MarkupContent(kind: MarkupKind, value: string)

  /** `DetailSymbolInformation`. */
  datatype DetailSymbolInformation = DetailSymbolInformation(
    symbolInformation: SymbolInformation,
    contents: Option<MarkupContent>)

  /** `Reference`: where the use is, and the symbol it resolves to. */
  datatype Reference = Reference(
    category: ReferenceCategory,
    location: Location,
    symbol: SymbolInformation)

  /** `Full`: `None` is JSON `null`, distinct from an empty list. */
  datatype Full = Full(
    symbols: Option<seq<DetailSymbolInformation>>,
    references: Option<seq<Reference>>)

  /** `FullParams`: only the document is given; there is no flag. */
  datatype TextDocumentIdentifier = TextDocumentIdentifier(uri: string)
  datatype FullParams = FullParams(textDocument: TextDocumentIdentifier)

  /** The `value` of a JSON-patch operation: the empty array, or a `Full` object. */
  datatype PatchValue = EmptyArray | FullValue(full: Full)

  /** A JSON-patch `Operation`. */
  datatype Operation = Operation(op: string, path: string, value: PatchValue)
}
