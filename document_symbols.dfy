/**
 * `collectDocumentSymbols` and `collectDocumentSymbolsInRange` of
 * src/document-symbols.ts: a walk over a TypeScript navigation tree that
 * builds the LSP `DocumentSymbol` hierarchy, keeping a node when the library
 * calls it a symbol or when one of its children was kept.
 */
module DocumentSymbols {
  import opened Wrappers
  import opened Positions

  /** `ts.TextSpan`: an offset into the file and a length. */
  datatype TextSpan = TextSpan(start: nat, length: nat)

  /** `ts.NavigationTree`; an absent `childItems` is the empty list. */
  datatype NavTree = NavTree(
    text: string,
    kind: string,
    spans: seq<TextSpan>,
    nameSpan: Option<TextSpan>,
    childItems: seq<NavTree>)

  /** `lsp.DocumentSymbol`; `kind` is the numeric LSP symbol kind. */
  datatype DocumentSymbol = DocumentSymbol(
    name: string,
    detail: string,
    kind: nat,
    range: Range,
    selectionRange: Range,
    children: seq<DocumentSymbol>)

  /**
   * The library functions the walk calls, taken as given:
   * `ts.getLineAndCharacterOfPosition` for the source file,
   * `navigationTreeIsSymbol` and `stringtoSymbolKind`.
   */
  datatype Env = Env(
    lineAndCharacter: nat -> Position,
    isSymbol: NavTree -> bool,
    symbolKind: string -> nat)

  /** `asRange`: the positions of a span's first offset and of the offset just past it. */
  function AsRange(env: Env, span: TextSpan): Range {
    Range(env.lineAndCharacter(span.start), env.lineAndCharacter(span.start + span.length))
  }

  /**
   * With an offset-to-position map that keeps the order of offsets, a span's
   * range never ends before it starts, and an empty span gives an empty range.
   */
  lemma AsRangeWellFormed(env: Env, span: TextSpan)
    requires forall i: nat, j: nat :: i <= j ==> IsBeforeOrEqual(env.lineAndCharacter(i), env.lineAndCharacter(j))
    ensures IsBeforeOrEqual(AsRange(env, span).start, AsRange(env, span).end)
    ensures span.length == 0 ==> AsRange(env, span).start == AsRange(env, span).end
  {
  }

  /** The span's range has a non-`undefined` intersection with `range` (argument order as in the source). */
  predicate Hits(env: Env, range: Range, span: TextSpan) {
    Intersection(range, AsRange(env, span)).Some?
  }

  /** `spans.some(s => !!Range.intersection(range, asRange(s)))`. */
  predicate SomeSpanHits(env: Env, spans: seq<TextSpan>, range: Range) {
    |spans| > 0 && (Hits(env, range, spans[0]) || SomeSpanHits(env, spans[1..], range))
  }

  /** The index of the first span, from `i` on, whose range intersects `range`. */
  function FirstHitFrom(env: Env, spans: seq<TextSpan>, range: Range, i: nat): (r: Option<nat>)
    requires i <= |spans|
    ensures r.Some? ==> i <= r.value < |spans|
    decreases |spans| - i
  {
    if i == |spans| then None
    else if Hits(env, range, spans[i]) then Some(i)
    else FirstHitFrom(env, spans, range, i + 1)
  }

  /** The span found is the first one from `i` on that meets `range`; none is found when none meets it. */
  lemma {:induction false} FirstHitFromSpec(env: Env, spans: seq<TextSpan>, range: Range, i: nat)
    requires i <= |spans|
    ensures var r := FirstHitFrom(env, spans, range, i);
      && (r.Some? ==> Hits(env, range, spans[r.value]))
      && (r.Some? ==> forall j :: i <= j < r.value ==> !Hits(env, range, spans[j]))
      && (r.None? ==> forall j :: i <= j < |spans| ==> !Hits(env, range, spans[j]))
    decreases |spans| - i
  {
    if i < |spans| && !Hits(env, range, spans[i]) {
      FirstHitFromSpec(env, spans, range, i + 1);
    }
  }

  /** The span the walk processes: the first one that intersects `range`, if any. */
  function FirstHit(env: Env, spans: seq<TextSpan>, range: Range): Option<nat> {
    FirstHitFrom(env, spans, range, 0)
  }

  /** The `selectionRange` of an entry: the name span's range when it intersects the chosen span, else the span's. */
  function SelectionRange(env: Env, node: NavTree, spanRange: Range): Range {
    match node.nameSpan
    case None => spanRange
    case Some(ns) =>
      if Intersection(spanRange, AsRange(env, ns)).Some? then AsRange(env, ns) else spanRange
  }

  /** The entry pushed for `node` once its span `spanRange` is chosen and its children collected. */
  function Entry(env: Env, node: NavTree, spanRange: Range, children: seq<DocumentSymbol>): DocumentSymbol {
    DocumentSymbol(node.text, "", env.symbolKind(node.kind), spanRange,
                   SelectionRange(env, node, spanRange), children)
  }

  /** What one call of `collectDocumentSymbolsInRange` returns and what it pushes. */
  datatype Outcome = Outcome(included: bool, pushed: seq<DocumentSymbol>)

  /** Specification of `collectDocumentSymbolsInRange(node, symbols, range)` with `flatten = false`. */
  function Walk(env: Env, node: NavTree, range: Range): Outcome
    decreases node, |node.childItems| + 1
  {
    match FirstHit(env, node.spans, range)
    case None => Outcome(env.isSymbol(node), [])
    case Some(i) =>
      var spanRange := AsRange(env, node.spans[i]);
      var kids := WalkChildren(env, node, |node.childItems|, spanRange);
      var keep := env.isSymbol(node) || kids.included;
      Outcome(keep, if keep then [Entry(env, node, spanRange, kids.pushed)] else [])
  }

  /**
   * The loop over the first `k` children of `node`: a child with a span that
   * intersects `spanRange` is walked within `spanRange`, pushing into the
   * shared `children` list; `included` says whether any of them was kept.
   */
  function WalkChildren(env: Env, node: NavTree, k: nat, spanRange: Range): Outcome
    requires k <= |node.childItems|
    decreases node, k
  {
    if k == 0 then Outcome(false, [])
    else
      var prev := WalkChildren(env, node, k - 1, spanRange);
      var child := node.childItems[k - 1];
      if SomeSpanHits(env, child.spans, spanRange) then
        var w := Walk(env, child, spanRange);
        Outcome(prev.included || w.included, prev.pushed + w.pushed)
      else prev
  }

  /** Child `c` of `node` was visited within `spanRange` and kept. */
  predicate ChildIncluded(env: Env, node: NavTree, c: nat, spanRange: Range)
    requires c < |node.childItems|
  {
    SomeSpanHits(env, node.childItems[c].spans, spanRange) &&
    Walk(env, node.childItems[c], spanRange).included
  }

  /** The children loop keeps a child exactly when some visited child was kept. */
  lemma {:induction false} WalkChildrenIncluded(env: Env, node: NavTree, k: nat, spanRange: Range)
    requires k <= |node.childItems|
    ensures WalkChildren(env, node, k, spanRange).included <==>
      exists c :: 0 <= c < k && ChildIncluded(env, node, c, spanRange)
  {
    if k > 0 {
      WalkChildrenIncluded(env, node, k - 1, spanRange);
      var child := node.childItems[k - 1];
      if SomeSpanHits(env, child.spans, spanRange) {
        assert WalkChildren(env, node, k, spanRange).included ==
          (WalkChildren(env, node, k - 1, spanRange).included || ChildIncluded(env, node, k - 1, spanRange));
      } else {
        assert !ChildIncluded(env, node, k - 1, spanRange);
        assert WalkChildren(env, node, k, spanRange) == WalkChildren(env, node, k - 1, spanRange);
      }
    }
  }

  /** A call pushes at most one entry, and that entry is the node's own, built within the chosen span. */
  lemma WalkPushesAtMostOne(env: Env, node: NavTree, range: Range)
    ensures |Walk(env, node, range).pushed| <= 1
    ensures Walk(env, node, range).pushed != [] ==>
      FirstHit(env, node.spans, range).Some? && FirstHit(env, node.spans, range).value < |node.spans| &&
      var spanRange := AsRange(env, node.spans[FirstHit(env, node.spans, range).value]);
      Walk(env, node, range).pushed == [Entry(env, node, spanRange, WalkChildren(env, node, |node.childItems|, spanRange).pushed)]
  {
  }

  /**
   * The inclusion rule: an entry is pushed exactly when some span intersects
   * `range` and either the node is a symbol or one of its children, visited
   * within the chosen span, was kept; the call returns `true` exactly when the
   * node is a symbol or such a child exists (so a symbol none of whose spans
   * meets `range` returns `true` and pushes nothing).
   */
  lemma WalkInclusion(env: Env, node: NavTree, range: Range)
    ensures var w := Walk(env, node, range);
      var hit := FirstHit(env, node.spans, range);
      && (w.pushed != [] <==>
            hit.Some? &&
            (env.isSymbol(node) ||
             exists c :: 0 <= c < |node.childItems| &&
               ChildIncluded(env, node, c, AsRange(env, node.spans[hit.value]))))
      && (w.included <==>
            env.isSymbol(node) ||
            (hit.Some? &&
             exists c :: 0 <= c < |node.childItems| &&
               ChildIncluded(env, node, c, AsRange(env, node.spans[hit.value]))))
  {
    var hit := FirstHit(env, node.spans, range);
    if hit.Some? {
      WalkChildrenIncluded(env, node, |node.childItems|, AsRange(env, node.spans[hit.value]));
    }
  }

  /**
   * The fields of a pushed entry: the node's text, an empty detail, the
   * chosen span's range, and the name span's range as selection range when it
   * intersects the chosen span.
   */
  lemma WalkEntry(env: Env, node: NavTree, range: Range)
    requires Walk(env, node, range).pushed != []
    ensures var e := Walk(env, node, range).pushed[0];
      var i := FirstHit(env, node.spans, range).value;
      var spanRange := AsRange(env, node.spans[i]);
      && i < |node.spans| && Hits(env, range, node.spans[i])
      && (forall j :: 0 <= j < i ==> !Hits(env, range, node.spans[j]))
      && e.name == node.text && e.detail == "" && e.kind == env.symbolKind(node.kind)
      && e.range == Range(env.lineAndCharacter(node.spans[i].start),
                          env.lineAndCharacter(node.spans[i].start + node.spans[i].length))
      && (node.nameSpan.Some? && Intersection(spanRange, AsRange(env, node.nameSpan.value)).Some? ==>
            e.selectionRange == AsRange(env, node.nameSpan.value))
      && (node.nameSpan.None? || Intersection(spanRange, AsRange(env, node.nameSpan.value)).None? ==>
            e.selectionRange == spanRange)
      && e.children == WalkChildren(env, node, |node.childItems|, spanRange).pushed
  {
    FirstHitFromSpec(env, node.spans, range, 0);
  }

  /** A span that meets `range` is found whenever one exists. */
  lemma {:induction false} SomeSpanHitsFrom(env: Env, spans: seq<TextSpan>, range: Range, i: nat)
    requires i <= |spans|
    ensures SomeSpanHits(env, spans[i..], range) ==> FirstHitFrom(env, spans, range, i).Some?
    decreases |spans| - i
  {
    if i < |spans| {
      assert spans[i..][1..] == spans[i + 1..];
      SomeSpanHitsFrom(env, spans, range, i + 1);
    }
  }

  /**
   * A child is only ever walked within a range that one of its spans meets,
   * so inside the tree `Walk` always finds a span to process.
   */
  lemma VisitedChildHasSpan(env: Env, node: NavTree, c: nat, spanRange: Range)
    requires c < |node.childItems|
    requires SomeSpanHits(env, node.childItems[c].spans, spanRange)
    ensures FirstHit(env, node.childItems[c].spans, spanRange).Some?
  {
    var spans := node.childItems[c].spans;
    assert spans[0..] == spans;
    SomeSpanHitsFrom(env, spans, spanRange, 0);
  }

  /** `e` is the one entry that walking `node` within `range` pushes. */
  predicate PushedBy(env: Env, node: NavTree, range: Range, e: DocumentSymbol) {
    Walk(env, node, range).pushed == [e]
  }

  /**
   * The entries pushed by the children loop: at most one per child, each of
   * them the entry of a child visited within `spanRange`.
   */
  lemma {:induction false} WalkChildrenPushed(env: Env, node: NavTree, k: nat, spanRange: Range)
    requires k <= |node.childItems|
    ensures var p := WalkChildren(env, node, k, spanRange).pushed;
      |p| <= k &&
      forall e :: e in p ==> exists c :: 0 <= c < k && PushedBy(env, node.childItems[c], spanRange, e)
  {
    if k > 0 {
      WalkChildrenPushed(env, node, k - 1, spanRange);
      var child := node.childItems[k - 1];
      if SomeSpanHits(env, child.spans, spanRange) {
        WalkPushesAtMostOne(env, child, spanRange);
        var w := Walk(env, child, spanRange);
        if w.pushed != [] {
          assert PushedBy(env, child, spanRange, w.pushed[0]);
        }
      }
    }
  }

  /**
   * `collectDocumentSymbolsInRange(sourceFile, node, symbols, range)` with
   * `flatten = false`. The caller's `symbols` array, which the source pushes
   * into in place, is passed in and handed back.
   */
  method CollectDocumentSymbolsInRange(env: Env, node: NavTree, symbols: seq<DocumentSymbol>, range: Range)
    returns (included: bool, symbols': seq<DocumentSymbol>)
    ensures included == Walk(env, node, range).included
    ensures symbols' == symbols + Walk(env, node, range).pushed
    decreases node
  {
    included := env.isSymbol(node);
    symbols' := symbols;
    var i := 0;
    while i < |node.spans|
      invariant i <= |node.spans|
      invariant FirstHitFrom(env, node.spans, range, i) == FirstHit(env, node.spans, range)
      invariant included == env.isSymbol(node) && symbols' == symbols
    {
      var spanRange := AsRange(env, node.spans[i]);
      if Intersection(range, spanRange).None? {
        i := i + 1;
        continue;
      }
      var children: seq<DocumentSymbol> := [];
      for k := 0 to |node.childItems|
        invariant included == (env.isSymbol(node) || WalkChildren(env, node, k, spanRange).included)
        invariant children == WalkChildren(env, node, k, spanRange).pushed
      {
        var child := node.childItems[k];
        if SomeSpanHits(env, child.spans, spanRange) {
          var includedChild;
          includedChild, children := CollectDocumentSymbolsInRange(env, child, children, spanRange);
          included := included || includedChild;
        }
      }
      if included {
        symbols' := symbols' + [Entry(env, node, spanRange, children)];
      }
      break;
    }
  }

  /** The range `collectDocumentSymbols` searches a top-level item in: first span's start to last span's end. */
  function ItemRange(env: Env, item: NavTree): Range
    requires |item.spans| > 0
  {
    Range(AsRange(env, item.spans[0]).start, AsRange(env, item.spans[|item.spans| - 1]).end)
  }

  /** Every top-level item has a span (the source indexes `spans[0]` unguarded). */
  predicate ItemsHaveSpans(root: NavTree) {
    forall c :: 0 <= c < |root.childItems| ==> |root.childItems[c].spans| > 0
  }

  /** What `collectDocumentSymbols` has collected after its first `k` top-level items. */
  function TopLevel(env: Env, root: NavTree, k: nat): seq<DocumentSymbol>
    requires k <= |root.childItems| && ItemsHaveSpans(root)
  {
    if k == 0 then []
    else
      var item := root.childItems[k - 1];
      TopLevel(env, root, k - 1) + Walk(env, item, ItemRange(env, item)).pushed
  }

  /** `collectDocumentSymbols(sourceFile, root)` with `flatten = false`. */
  method CollectDocumentSymbols(env: Env, root: NavTree) returns (symbols: seq<DocumentSymbol>)
    requires ItemsHaveSpans(root)
    ensures symbols == TopLevel(env, root, |root.childItems|)
  {
    symbols := [];
    for k := 0 to |root.childItems|
      invariant symbols == TopLevel(env, root, k)
    {
      var item := root.childItems[k];
      var _, s := CollectDocumentSymbolsInRange(env, item, symbols, ItemRange(env, item));
      symbols := s;
    }
  }

  /**
   * Only the root's children are collected, never the root: at most one
   * entry per child, each of them the entry that walking a child within its
   * item range pushes.
   */
  lemma {:induction false} TopLevelEntries(env: Env, root: NavTree, k: nat)
    requires k <= |root.childItems| && ItemsHaveSpans(root)
    ensures var s := TopLevel(env, root, k);
      |s| <= k &&
      forall e :: e in s ==>
        exists c :: 0 <= c < k && PushedBy(env, root.childItems[c], ItemRange(env, root.childItems[c]), e)
  {
    if k > 0 {
      TopLevelEntries(env, root, k - 1);
      var item := root.childItems[k - 1];
      var prev := TopLevel(env, root, k - 1);
      var w := Walk(env, item, ItemRange(env, item)).pushed;
      assert TopLevel(env, root, k) == prev + w;
      WalkPushesAtMostOne(env, item, ItemRange(env, item));
      forall e | e in prev + w
        ensures exists c :: 0 <= c < k && PushedBy(env, root.childItems[c], ItemRange(env, root.childItems[c]), e)
      {
        if e !in prev {
          assert PushedBy(env, item, ItemRange(env, item), e);
        }
      }
    }
  }

  /** The root's own text, kind, spans and name span have no effect on the result. */
  lemma {:induction false} TopLevelIgnoresRoot(env: Env, root: NavTree, root': NavTree, k: nat)
    requires root.childItems == root'.childItems
    requires k <= |root.childItems| && ItemsHaveSpans(root)
    ensures ItemsHaveSpans(root') && TopLevel(env, root, k) == TopLevel(env, root', k)
  {
    if k > 0 {
      TopLevelIgnoresRoot(env, root, root', k - 1);
    }
  }
}
