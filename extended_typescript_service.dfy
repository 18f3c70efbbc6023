/**
 * `ExtendedTypescriptService.textDocumentFull` and `_getDetailSymbol` of
 * src/extended-typescript-service.ts: the full-document request, which
 * answers with the file's symbols and the references of its identifiers as
 * a two-operation JSON patch.
 */
module ExtendedTypescriptService {
  import opened Wrappers
  import opened Positions
  import opened DocumentSymbols
  import opened ReferenceCategories
  import opened LspExtend

  /** `ts.SyntaxKind`, as far as the service tells kinds apart. */
  datatype SyntaxKind = Identifier | OtherSyntax(code: nat)

  /** A node of the syntax tree: its kind and its full start and end offsets. */
  datatype AstNode = AstNode(kind: SyntaxKind, pos: nat, end: nat)

  /** `ts.DefinitionInfo`. */
  datatype DefinitionInfo = DefinitionInfo(fileName: string, name: string, kind: string, containerName: string)

  /** The package a file belongs to. */
  datatype PackageDescriptor = PackageDescriptor(name: string, version: Option<string>, repoUri: Option<string>)

  /** `SymbolDescriptor` of the langserver library. */
  datatype SymbolDescriptor = SymbolDescriptor(
    name: string,
    kind: string,
    containerName: string,
    filePath: string,
    package: Option<PackageDescriptor>)

  /** A call of `getDefinitionAtPosition`: it throws, or returns a list or `undefined`. */
  datatype Lookup = Throws | Returned(definitions: Option<seq<DefinitionInfo>>)

  /** One item of `walkNavigationTree(tree)`: a node and its parent. */
  datatype NavEntry = NavEntry(tree: NavTree, parent: Option<NavTree>)

  /**
   * A source file as the parser presents it: its name, the pre-order walk of
   * its navigation tree, and the nodes `walkMostAST` visits, in order.
   */
  datatype SourceFile = SourceFile(fileName: string, navigation: seq<NavEntry>, ast: seq<AstNode>)

  /**
   * The collaborators `textDocumentFull` calls, taken as given. `sourceFileOf`
   * stands for `normalizeUri`, `uri2path`, `getConfiguration`,
   * `ensureBasicFiles` and `_getSourceFile` together; `toSymbolInformation`
   * for `navigationTreeToSymbolInformation`; `definitionAt` for
   * `getDefinitionAtPosition`; `toDescriptor` for
   * `definitionInfoToSymbolDescriptor`; `packageOf` for `_getPackageDescriptor`
   * of the definition file's URI; `locationUri` for the library's `locationUri`.
   */
  datatype Service = Service(
    env: Env,
    sourceFileOf: string -> Option<SourceFile>,
    toSymbolInformation: NavEntry -> SymbolInformation,
    definitionAt: (string, nat) -> Lookup,
    toDescriptor: DefinitionInfo -> SymbolDescriptor,
    packageOf: string -> Option<PackageDescriptor>,
    locationUri: string -> string)

  /** `_getDetailSymbol`: the symbol with the placeholder hover contents. */
  function DetailSymbol(symbol: SymbolInformation): DetailSymbolInformation {
    DetailSymbolInformation(symbol, Some(MarkupContent(PlainText, "test")))
  }

  /** The symbol stream: navigation entries passing `navigationTreeIsSymbol`, each wrapped. */
  function SymbolsOf(svc: Service, entries: seq<NavEntry>): seq<DetailSymbolInformation> {
    if entries == [] then []
    else
      (if svc.env.isSymbol(entries[0].tree) then [DetailSymbol(svc.toSymbolInformation(entries[0]))] else [])
      + SymbolsOf(svc, entries[1..])
  }

  /** The symbol list of the request: empty when no source file is obtained. */
  function Symbols(svc: Service, file: Option<SourceFile>): seq<DetailSymbolInformation> {
    match file
    case None => []
    case Some(f) => SymbolsOf(svc, f.navigation)
  }

  /**
   * The definitions whose references an AST node yields: the lookup at
   * `node.pos + 1` for an identifier, and none for any other node, for a
   * lookup that throws, or for one that returns `undefined`.
   */
  function IdentifierDefinitions(svc: Service, f: SourceFile, node: AstNode): (r: seq<DefinitionInfo>)
    ensures r != [] ==>
      node.kind == Identifier && svc.definitionAt(f.fileName, node.pos + 1) == Returned(Some(r))
    ensures (node.kind == Identifier && svc.definitionAt(f.fileName, node.pos + 1).Returned? &&
             svc.definitionAt(f.fileName, node.pos + 1).definitions.Some?) ==>
      r == svc.definitionAt(f.fileName, node.pos + 1).definitions.value
  {
    if node.kind != Identifier then []
    else
      match svc.definitionAt(f.fileName, node.pos + 1)
      case Throws => []
      case Returned(None) => []
      case Returned(Some(defs)) => defs
  }

  /** The `Reference` built for one definition of the identifier `node`. */
  function MakeReference(svc: Service, f: SourceFile, node: AstNode, def: DefinitionInfo): (r: Reference)
    ensures r.category == UNCATEGORIZED
    ensures r.location == Location(svc.locationUri(f.fileName),
                                   Range(svc.env.lineAndCharacter(node.pos), svc.env.lineAndCharacter(node.end)))
    ensures r.symbol.location.uri == svc.toDescriptor(def).filePath
    ensures r.symbol.location.range.start == r.symbol.location.range.end == r.location.range.start
    ensures r.symbol.name == svc.toDescriptor(def).name
  {
    // the package is attached to the descriptor and then not used
    var symbol := svc.toDescriptor(def).(package := svc.packageOf(def.fileName));
    var start := svc.env.lineAndCharacter(node.pos);
    var end := svc.env.lineAndCharacter(node.end);
    Reference(
      UNCATEGORIZED,
      Location(svc.locationUri(f.fileName), Range(start, end)),
      SymbolInformation(symbol.name, svc.env.symbolKind(symbol.kind),
                        Location(symbol.filePath, Range(start, start)), None))
  }

  /** The references of one AST node: one per definition its lookup returns. */
  function NodeReferences(svc: Service, f: SourceFile, node: AstNode): seq<Reference> {
    var defs := IdentifierDefinitions(svc, f, node);
    seq(|defs|, j requires 0 <= j < |defs| => MakeReference(svc, f, node, defs[j]))
  }

  /** The reference stream over a list of AST nodes, in node order. */
  function ReferencesOf(svc: Service, f: SourceFile, nodes: seq<AstNode>): seq<Reference> {
    if nodes == [] then [] else NodeReferences(svc, f, nodes[0]) + ReferencesOf(svc, f, nodes[1..])
  }

  /** The reference list of the request: empty when no source file is obtained. */
  function References(svc: Service, file: Option<SourceFile>): seq<Reference> {
    match file
    case None => []
    case Some(f) => ReferencesOf(svc, f, f.ast)
  }

  /**
   * `textDocumentFull`: the empty document first, then one append of the
   * `Full` value. Neither list is ever `null`; no flag turns references off.
   */
  function TextDocumentFull(svc: Service, params: FullParams): (ops: seq<Operation>)
    ensures |ops| == 2
    ensures ops[0] == Operation("add", "", EmptyArray)
    ensures ops[1].op == "add" && ops[1].path == "/-" && ops[1].value.FullValue?
    ensures ops[1].value.full.symbols.Some? && ops[1].value.full.references.Some?
    ensures ops[1].value.full == Full(Some(Symbols(svc, svc.sourceFileOf(params.textDocument.uri))),
                                      Some(References(svc, svc.sourceFileOf(params.textDocument.uri))))
  {
    var file := svc.sourceFileOf(params.textDocument.uri);
    var full := Full(Some(Symbols(svc, file)), Some(References(svc, file)));
    [Operation("add", "", EmptyArray), Operation("add", "/-", FullValue(full))]
  }

  /** Without a source file the response still has both lists, each empty rather than `null`. */
  lemma NoSourceFileGivesEmptyLists(svc: Service, params: FullParams)
    requires svc.sourceFileOf(params.textDocument.uri).None?
    ensures TextDocumentFull(svc, params)[1].value.full == Full(Some([]), Some([]))
  {
  }

  /** The number of navigation entries that pass `navigationTreeIsSymbol`. */
  function Passing(svc: Service, entries: seq<NavEntry>): nat {
    if entries == [] then 0 else (if svc.env.isSymbol(entries[0].tree) then 1 else 0) + Passing(svc, entries[1..])
  }

  /**
   * The symbols are exactly the navigation entries passing
   * `navigationTreeIsSymbol`, each with the placeholder contents.
   */
  lemma {:induction false} SymbolsExactly(svc: Service, entries: seq<NavEntry>)
    ensures |SymbolsOf(svc, entries)| == Passing(svc, entries) <= |entries|
    ensures forall x :: x in SymbolsOf(svc, entries) <==>
      exists i :: 0 <= i < |entries| && svc.env.isSymbol(entries[i].tree) &&
        x.symbolInformation == svc.toSymbolInformation(entries[i]) &&
        x.contents == Some(MarkupContent(PlainText, "test"))
  {
    if entries != [] {
      var rest := entries[1..];
      SymbolsExactly(svc, rest);
      forall x | x in SymbolsOf(svc, entries)
        ensures
          exists i :: 0 <= i < |entries| && svc.env.isSymbol(entries[i].tree) &&
            x == DetailSymbol(svc.toSymbolInformation(entries[i]))
      {
        if x !in SymbolsOf(svc, rest) {
          assert svc.env.isSymbol(entries[0].tree) && x == DetailSymbol(svc.toSymbolInformation(entries[0]));
        } else {
          var i :| 0 <= i < |rest| && svc.env.isSymbol(rest[i].tree) &&
            x.symbolInformation == svc.toSymbolInformation(rest[i]) &&
            x.contents == Some(MarkupContent(PlainText, "test"));
          assert entries[i + 1] == rest[i];
        }
      }
      forall i | 0 <= i < |entries| && svc.env.isSymbol(entries[i].tree)
        ensures DetailSymbol(svc.toSymbolInformation(entries[i])) in SymbolsOf(svc, entries)
      {
        if i > 0 {
          assert rest[i - 1] == entries[i];
        }
      }
    }
  }

  /**
   * Order and multiplicity: the symbol of a passing entry sits at the position
   * given by the number of passing entries before it, so each passing entry
   * yields its own symbol, in the order of the navigation walk.
   */
  lemma {:induction false} SymbolAt(svc: Service, entries: seq<NavEntry>, i: nat)
    requires i < |entries| && svc.env.isSymbol(entries[i].tree)
    ensures Passing(svc, entries[..i]) < |SymbolsOf(svc, entries)|
    ensures SymbolsOf(svc, entries)[Passing(svc, entries[..i])].symbolInformation == svc.toSymbolInformation(entries[i])
    ensures SymbolsOf(svc, entries)[Passing(svc, entries[..i])].contents == Some(MarkupContent(PlainText, "test"))
  {
    if i > 0 {
      var rest := entries[1..];
      assert entries[..i][1..] == rest[..i - 1];
      assert entries[..i][0] == entries[0];
      assert rest[i - 1] == entries[i];
      SymbolAt(svc, rest, i - 1);
    }
  }

  /** The references of a concatenation of node lists are the concatenation of their references. */
  lemma {:induction false} ReferencesOfAppend(svc: Service, f: SourceFile, a: seq<AstNode>, b: seq<AstNode>)
    ensures ReferencesOf(svc, f, a + b) == ReferencesOf(svc, f, a) + ReferencesOf(svc, f, b)
  {
    if a == [] {
      assert a + b == b;
    } else {
      assert (a + b)[0] == a[0] && (a + b)[1..] == a[1..] + b;
      ReferencesOfAppend(svc, f, a[1..], b);
    }
  }

  /** Every definition returned for an identifier yields one reference, and nothing else does. */
  lemma {:induction false} ReferencesExactly(svc: Service, f: SourceFile, nodes: seq<AstNode>)
    ensures forall r :: r in ReferencesOf(svc, f, nodes) <==>
      exists i, j :: 0 <= i < |nodes| && 0 <= j < |IdentifierDefinitions(svc, f, nodes[i])| &&
        r == MakeReference(svc, f, nodes[i], IdentifierDefinitions(svc, f, nodes[i])[j])
  {
    if nodes != [] {
      var rest := nodes[1..];
      ReferencesExactly(svc, f, rest);
      forall r | r in ReferencesOf(svc, f, nodes)
        ensures
          exists i, j :: 0 <= i < |nodes| && 0 <= j < |IdentifierDefinitions(svc, f, nodes[i])| &&
            r == MakeReference(svc, f, nodes[i], IdentifierDefinitions(svc, f, nodes[i])[j])
      {
        if r in NodeReferences(svc, f, nodes[0]) {
          var j :| 0 <= j < |NodeReferences(svc, f, nodes[0])| && NodeReferences(svc, f, nodes[0])[j] == r;
          assert r == MakeReference(svc, f, nodes[0], IdentifierDefinitions(svc, f, nodes[0])[j]);
        } else {
          assert r in ReferencesOf(svc, f, rest);
          var i, j :| 0 <= i < |rest| && 0 <= j < |IdentifierDefinitions(svc, f, rest[i])| &&
            r == MakeReference(svc, f, rest[i], IdentifierDefinitions(svc, f, rest[i])[j]);
          assert nodes[i + 1] == rest[i];
        }
      }
      forall i, j | 0 <= i < |nodes| && 0 <= j < |IdentifierDefinitions(svc, f, nodes[i])|
        ensures MakeReference(svc, f, nodes[i], IdentifierDefinitions(svc, f, nodes[i])[j]) in ReferencesOf(svc, f, nodes)
      {
        if i == 0 {
          assert NodeReferences(svc, f, nodes[0])[j] == MakeReference(svc, f, nodes[0], IdentifierDefinitions(svc, f, nodes[0])[j]);
        } else {
          assert rest[i - 1] == nodes[i];
        }
      }
    }
  }

  /** The number of definitions the identifiers of `nodes` resolve to. */
  function DefinitionCount(svc: Service, f: SourceFile, nodes: seq<AstNode>): nat {
    if nodes == [] then 0 else |IdentifierDefinitions(svc, f, nodes[0])| + DefinitionCount(svc, f, nodes[1..])
  }

  /** One reference per returned definition, so as many references as definitions. */
  lemma {:induction false} ReferenceCount(svc: Service, f: SourceFile, nodes: seq<AstNode>)
    ensures |ReferencesOf(svc, f, nodes)| == DefinitionCount(svc, f, nodes)
  {
    if nodes != [] {
      ReferenceCount(svc, f, nodes[1..]);
    }
  }

  /**
   * Multiplicity: the references are laid out node by node, so the `j`-th
   * definition of the `i`-th node gives its own reference, at the position
   * that counts the definitions of the nodes before it.
   */
  lemma {:induction false} ReferenceAt(svc: Service, f: SourceFile, nodes: seq<AstNode>, i: nat, j: nat)
    requires i < |nodes| && j < |IdentifierDefinitions(svc, f, nodes[i])|
    ensures DefinitionCount(svc, f, nodes[..i]) + j < |ReferencesOf(svc, f, nodes)|
    ensures ReferencesOf(svc, f, nodes)[DefinitionCount(svc, f, nodes[..i]) + j] ==
      MakeReference(svc, f, nodes[i], IdentifierDefinitions(svc, f, nodes[i])[j])
  {
    var rest := nodes[1..];
    if i == 0 {
      assert NodeReferences(svc, f, nodes[0])[j] == MakeReference(svc, f, nodes[0], IdentifierDefinitions(svc, f, nodes[0])[j]);
    } else {
      assert nodes[..i][1..] == rest[..i - 1];
      assert nodes[..i][0] == nodes[0];
      assert rest[i - 1] == nodes[i];
      ReferenceAt(svc, f, rest, i - 1, j);
    }
  }

  /**
   * Error containment: an identifier whose lookup throws contributes no
   * reference, and the others contribute exactly what they would without it.
   */
  lemma ThrowingLookupIsSkipped(svc: Service, f: SourceFile, nodes: seq<AstNode>, i: nat)
    requires i < |nodes| && svc.definitionAt(f.fileName, nodes[i].pos + 1) == Throws
    ensures ReferencesOf(svc, f, nodes) == ReferencesOf(svc, f, nodes[..i]) + ReferencesOf(svc, f, nodes[i + 1..])
  {
    assert nodes == nodes[..i] + ([nodes[i]] + nodes[i + 1..]);
    ReferencesOfAppend(svc, f, nodes[..i], [nodes[i]] + nodes[i + 1..]);
    ReferencesOfCons(svc, f, nodes[i], nodes[i + 1..]);
  }

  /** The references of a node list with a first node. */
  lemma ReferencesOfCons(svc: Service, f: SourceFile, node: AstNode, rest: seq<AstNode>)
    ensures ReferencesOf(svc, f, [node] + rest) == NodeReferences(svc, f, node) + ReferencesOf(svc, f, rest)
  {
    assert ([node] + rest)[1..] == rest;
  }

  /** The symbol list does not depend on the definition lookup at all. */
  lemma {:induction false} SymbolsIgnoreLookup(svc: Service, entries: seq<NavEntry>, lookup: (string, nat) -> Lookup)
    ensures SymbolsOf(svc, entries) == SymbolsOf(svc.(definitionAt := lookup), entries)
  {
    if entries != [] {
      SymbolsIgnoreLookup(svc, entries[1..], lookup);
    }
  }

  /** The package attached to each descriptor never reaches the response. */
  lemma {:induction false} ReferencesIgnorePackage(
    svc: Service, f: SourceFile, nodes: seq<AstNode>, packageOf: string -> Option<PackageDescriptor>)
    ensures ReferencesOf(svc, f, nodes) == ReferencesOf(svc.(packageOf := packageOf), f, nodes)
  {
    if nodes != [] {
      ReferencesIgnorePackage(svc, f, nodes[1..], packageOf);
      var svc' := svc.(packageOf := packageOf);
      assert NodeReferences(svc, f, nodes[0]) == NodeReferences(svc', f, nodes[0]);
    }
  }

  /** A logged lookup failure: the file name and the offset `node.pos + 1`. */
  datatype LookupFailure = LookupFailure(fileName: string, offset: nat)

  /** The failures `textDocumentFull` logs: one per identifier whose lookup throws, in node order. */
  function LookupFailures(svc: Service, f: SourceFile, nodes: seq<AstNode>): seq<LookupFailure> {
    if nodes == [] then []
    else
      (if nodes[0].kind == Identifier && svc.definitionAt(f.fileName, nodes[0].pos + 1) == Throws
       then [LookupFailure(f.fileName, nodes[0].pos + 1)] else [])
      + LookupFailures(svc, f, nodes[1..])
  }

  /** A failure is logged exactly for the identifiers whose lookup throws, at offset `pos + 1`. */
  lemma {:induction false} LookupFailuresExactly(svc: Service, f: SourceFile, nodes: seq<AstNode>)
    ensures forall e :: e in LookupFailures(svc, f, nodes) <==>
      exists i :: 0 <= i < |nodes| && nodes[i].kind == Identifier &&
        svc.definitionAt(f.fileName, nodes[i].pos + 1) == Throws &&
        e == LookupFailure(f.fileName, nodes[i].pos + 1)
  {
    if nodes != [] {
      var rest := nodes[1..];
      LookupFailuresExactly(svc, f, rest);
      forall e | e in LookupFailures(svc, f, nodes)
        ensures
          exists i :: 0 <= i < |nodes| && nodes[i].kind == Identifier &&
            svc.definitionAt(f.fileName, nodes[i].pos + 1) == Throws &&
            e == LookupFailure(f.fileName, nodes[i].pos + 1)
      {
        if e in LookupFailures(svc, f, rest) {
          var i :| 0 <= i < |rest| && rest[i].kind == Identifier &&
            svc.definitionAt(f.fileName, rest[i].pos + 1) == Throws &&
            e == LookupFailure(f.fileName, rest[i].pos + 1);
          assert nodes[i + 1] == rest[i];
        }
      }
      forall i | 0 <= i < |nodes| && nodes[i].kind == Identifier &&
          svc.definitionAt(f.fileName, nodes[i].pos + 1) == Throws
        ensures LookupFailure(f.fileName, nodes[i].pos + 1) in LookupFailures(svc, f, nodes)
      {
        if i > 0 {
          assert rest[i - 1] == nodes[i];
        }
      }
    }
  }
}
