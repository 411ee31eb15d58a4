/** The resource scraper of the current version: a `Resource` collects what
    one documentation page says about one Terraform resource. */
module Meta {
  import opened Wrappers
  import opened Strings
  import opened Hcl
  import opened Errors
  import opened Matching
  import opened References
  import opened Resolver
  import opened Prelude
  import opened DocTree

  /** The dependency map of one `findExampleBlock` call. It is a single
      object: every example the call appends refers to it, so each of them
      sees every dependency the call stores, also those stored later. */
  class Dependencies {
    var entries: map<string, string>

    constructor ()
      ensures entries == map[]
    {
      entries := map[];
    }

    method Put(key: string, manifest: string)
      modifies this
      ensures entries == old(entries)[key := manifest]
    {
      entries := entries[key := manifest];
    }
  }

  datatype Example = Example(name: string, manifest: string, references: map<string, string>, dependencies: Dependencies)

  /** An example as it reads once the page is scraped: the shared dependency
      map is read through. */
  datatype ExampleView = ExampleView(name: string, manifest: string, references: map<string, string>,
                                     dependencies: map<string, string>)

  datatype ScrapeConfiguration = ScrapeConfiguration(skipExampleErrors: bool, skipExampleReferences: bool)

  /** An example snippet after HCL parsing. */
  datatype Snippet = Parsed(file: File) | ParseFailure(text: string)

  /** What the XPath queries of one page yield: the prelude texts, the DOM with
      the argument anchors, the import statement texts and the code snippets. */
  datatype Page = Page(prelude: seq<string>, dom: Dom, anchors: seq<nat>, imports: seq<string>, snippets: seq<Snippet>)

  predicate BlocksWellFormed(bytes: string, blocks: seq<Block>)
  {
    forall b :: b in blocks ==> WellFormedBlock(bytes, b)
  }

  function View(e: Example): ExampleView
    reads e.dependencies
  {
    ExampleView(e.name, e.manifest, e.references, e.dependencies.entries)
  }

  function Views(es: seq<Example>): (vs: seq<ExampleView>)
    reads set k | 0 <= k < |es| :: es[k].dependencies
    ensures |vs| == |es| && forall k :: 0 <= k < |es| ==> vs[k] == View(es[k])
  {
    if es == [] then []
    else Views(es[..|es| - 1]) + [View(es[|es| - 1])]
  }

  /** The example a found block becomes. */
  function ExampleOf(f: Found, skipRefs: bool, bytes: string, deps: Dependencies): Example
    requires RangesWithin(bytes, f.block.attrs)
  {
    Example(f.block.nameLabel, f.manifest, ExpectedRefs(skipRefs, bytes, f.block), deps)
  }

  /** `after` is `before` followed by one example per found block, all of them
      sharing `deps`. */
  predicate Appended(before: seq<Example>, after: seq<Example>, found: seq<Found>, skipRefs: bool, bytes: string,
                     deps: Dependencies)
  {
    && |after| == |before| + |found|
    && after[..|before|] == before
    && forall k :: 0 <= k < |found| ==>
         RangesWithin(bytes, found[k].block.attrs) && after[|before| + k] == ExampleOf(found[k], skipRefs, bytes, deps)
  }

  lemma AppendedSnoc(before: seq<Example>, after: seq<Example>, found: seq<Found>, skipRefs: bool, bytes: string,
                     deps: Dependencies, f: Found)
    requires Appended(before, after, found, skipRefs, bytes, deps) && RangesWithin(bytes, f.block.attrs)
    ensures Appended(before, after + [ExampleOf(f, skipRefs, bytes, deps)], found + [f], skipRefs, bytes, deps)
  {
    var after' := after + [ExampleOf(f, skipRefs, bytes, deps)];
    assert after'[..|before|] == after[..|before|];
    var found' := found + [f];
    forall k | 0 <= k < |found'|
      ensures RangesWithin(bytes, found'[k].block.attrs) && after'[|before| + k] == ExampleOf(found'[k], skipRefs, bytes, deps)
    {
      if k < |found| {
        assert found'[k] == found[k] && after'[|before| + k] == after[|before| + k];
      }
    }
  }

  /** The views of the examples appended for `found`, all reading the final
      dependency map `deps` of their call. */
  function FoundViews(found: seq<Found>, skipRefs: bool, bytes: string, deps: map<string, string>): (vs: seq<ExampleView>)
    requires forall k :: 0 <= k < |found| ==> RangesWithin(bytes, found[k].block.attrs)
    ensures |vs| == |found|
    ensures forall k :: 0 <= k < |found| ==>
              vs[k] == ExampleView(found[k].block.nameLabel, found[k].manifest, ExpectedRefs(skipRefs, bytes, found[k].block), deps)
  {
    seq(|found|, k requires 0 <= k < |found| =>
      ExampleView(found[k].block.nameLabel, found[k].manifest, ExpectedRefs(skipRefs, bytes, found[k].block), deps))
  }

  /** Appending examples that share `deps` appends their views. */
  lemma ViewsAppended(before: seq<Example>, after: seq<Example>, found: seq<Found>, skipRefs: bool, bytes: string,
                      deps: Dependencies)
    requires Appended(before, after, found, skipRefs, bytes, deps)
    ensures forall k :: 0 <= k < |found| ==> RangesWithin(bytes, found[k].block.attrs)
    ensures Views(after) == Views(before) + FoundViews(found, skipRefs, bytes, deps.entries)
  {
    var fv := FoundViews(found, skipRefs, bytes, deps.entries);
    forall j | 0 <= j < |fv|
      ensures View(after[|before| + j]) == fv[j]
    {
      FoundViewAt(before, after, found, skipRefs, bytes, deps, j);
    }
    ViewsSplit(before, after, fv);
  }

  /** The views of examples that extend `before` are the views of `before`
      followed by those of the new examples. */
  lemma ViewsSplit(before: seq<Example>, after: seq<Example>, tail: seq<ExampleView>)
    requires |after| == |before| + |tail| && after[..|before|] == before
    requires forall j :: 0 <= j < |tail| ==> View(after[|before| + j]) == tail[j]
    ensures Views(after) == Views(before) + tail
  {
    var vs := Views(before) + tail;
    forall k | 0 <= k < |after|
      ensures Views(after)[k] == vs[k]
    {
      if k < |before| {
        assert after[k] == after[..|before|][k];
      } else {
        assert View(after[|before| + (k - |before|)]) == tail[k - |before|];
      }
    }
  }

  lemma FoundViewAt(before: seq<Example>, after: seq<Example>, found: seq<Found>, skipRefs: bool, bytes: string,
                    deps: Dependencies, j: nat)
    requires Appended(before, after, found, skipRefs, bytes, deps) && j < |found|
    ensures RangesWithin(bytes, found[j].block.attrs)
    ensures View(after[|before| + j]) == FoundViews(found, skipRefs, bytes, deps.entries)[j]
  {
    assert after[|before| + j] == ExampleOf(found[j], skipRefs, bytes, deps);
  }

  /** The prelude fields after `scrapePrelude`: the first prelude node, if
      any, parsed over the fields as they were. */
  function PreludeOutcome(nodes: seq<string>, prev: PreludeFields): PreludeFields
  {
    if nodes == [] then prev else ParsePrelude(nodes[0], prev)
  }

  /** The raw prelude text an error reports: the first node's, or none. */
  function RawPrelude(nodes: seq<string>): string
  {
    if nodes == [] then "" else nodes[0]
  }

  /** The prelude check: the subcategory and the title must be non-empty. */
  function PreludeError(f: PreludeFields, raw: string): (err: Option<ScrapeError>)
    ensures err.None? <==> f.subCategory != "" && f.title != ""
    ensures err.Some? ==> err.value == MalformedPrelude(f.description, f.subCategory, f.title, raw)
  {
    if f.subCategory == "" || f.title == "" then Some(MalformedPrelude(f.description, f.subCategory, f.title, raw))
    else None
  }

  /** A page without a prelude node never passes the check on a new resource. */
  lemma MissingPreludeFails()
    ensures PreludeError(PreludeOutcome([], PreludeFields("", "", "")), RawPrelude([])).Some?
  {
  }

  /** The prelude check ignores the description: an empty one is accepted. */
  lemma EmptyDescriptionAccepted(f: PreludeFields, raw: string)
    requires f.title != "" && f.subCategory != ""
    ensures PreludeError(f.(description := ""), raw) == None
  {
  }

  /** The import statements as stored: each one trimmed. */
  function TrimmedAll(texts: seq<string>): (r: seq<string>)
    ensures |r| == |texts|
    ensures forall k :: 0 <= k < |texts| ==> r[k] == TrimSpace(texts[k])
  {
    seq(|texts|, k requires 0 <= k < |texts| => TrimSpace(texts[k]))
  }

  /** Stored import statements neither start nor end with white space, and
      need no further trimming. */
  lemma StoredImportsTrimmed(texts: seq<string>)
    ensures forall k :: 0 <= k < |texts| ==>
              var t := TrimmedAll(texts)[k];
              t == "" || (!IsSpace(t[0]) && !IsSpace(t[|t| - 1]))
    ensures forall k :: 0 <= k < |texts| ==> TrimSpace(TrimmedAll(texts)[k]) == TrimmedAll(texts)[k]
  {
    forall k | 0 <= k < |texts|
      ensures var t := TrimmedAll(texts)[k];
              && (t == "" || (!IsSpace(t[0]) && !IsSpace(t[|t| - 1])))
              && TrimSpace(t) == t
    {
      var i, j := TrimSpaceSpec(texts[k]);
      TrimSpaceIdempotent(texts[k]);
    }
  }

  /** The block filter of `scrapeExamples`: only `resource` blocks, in order. */
  method TrimToResources(blocks: seq<Block>) returns (trimmed: seq<Block>)
    ensures trimmed == ResourceBlocks(blocks)
  {
    trimmed := [];
    for i := 0 to |blocks|
      invariant trimmed == ResourceBlocks(blocks[..i])
    {
      assert blocks[..i + 1][..i] == blocks[..i];
      if blocks[i].kind == BlockResource {
        trimmed := trimmed + [blocks[i]];
      }
    }
    assert blocks[..|blocks|] == blocks;
  }

  predicate SnippetsWellFormed(snippets: seq<Snippet>)
  {
    forall k :: 0 <= k < |snippets| ==> snippets[k].Parsed? ==> WellFormed(snippets[k].file)
  }

  /** What `scrapeExamples` has made of a page so far: the resolved name it
      threads, the resource name, the examples as they read at the end, and
      the error that stopped it. */
  datatype ExamplesState = ExamplesState(resolved: string, name: string, views: seq<ExampleView>, err: Option<ScrapeError>)

  /** One snippet of `scrapeExamples` from state `st`: a parse failure is an
      error unless example errors are skipped, when it changes nothing; a
      parsed snippet resolves its `resource` blocks in exact mode under the
      threaded name, appends the examples found and sets the resource name to
      the name resolved. */
  function SnippetStep(snippet: Snippet, convert: Block -> Option<string>, config: ScrapeConfiguration,
                       st: ExamplesState): (r: ExamplesState)
    requires snippet.Parsed? ==> WellFormed(snippet.file)
  {
    match snippet
    case ParseFailure(text) =>
      if config.skipExampleErrors then st else st.(err := Some(ConfigParseFailure(text)))
    case Parsed(file) =>
      var blocks := ResourceBlocks(file.blocks);
      var p := ExampleBlock(blocks, convert, st.resolved, true, |st.views| > 0);
      if p.failed.Some? then st.(err := Some(ConversionFailure(DepKey(p.failed.value))))
      else
        var views := st.views + FoundViews(p.found, config.skipExampleReferences, file.bytes, p.deps);
        ExamplesState(p.name, p.name, views, st.err)
  }

  /** `scrapeExamples` over the snippets from state `st` on, stopping at the
      first error; at the end an empty resource name takes the resolved name. */
  function ScrapeSnippets(snippets: seq<Snippet>, convert: Block -> Option<string>, config: ScrapeConfiguration,
                          st: ExamplesState): (r: ExamplesState)
    requires SnippetsWellFormed(snippets) && st.err.None?
    decreases |snippets|
  {
    if snippets == [] then st.(name := if st.name == "" then st.resolved else st.name)
    else
      var st' := SnippetStep(snippets[0], convert, config, st);
      if st'.err.Some? then st' else ScrapeSnippets(snippets[1..], convert, config, st')
  }

  /** `SnippetStep` on a parsed snippet, in terms of the resolution `p` of its blocks. */
  lemma ParsedStep(file: File, convert: Block -> Option<string>, config: ScrapeConfiguration, st: ExamplesState,
                   p: PassState)
    requires WellFormed(file) && st.err.None?
    requires p == ExampleBlock(ResourceBlocks(file.blocks), convert, st.resolved, true, |st.views| > 0)
    ensures forall k :: 0 <= k < |p.found| ==> RangesWithin(file.bytes, p.found[k].block.attrs)
    ensures SnippetStep(Parsed(file), convert, config, st) ==
              if p.failed.Some? then st.(err := Some(ConversionFailure(DepKey(p.failed.value))))
              else ExamplesState(p.name, p.name, st.views + FoundViews(p.found, config.skipExampleReferences, file.bytes, p.deps), None)
  {
  }

  /** What `scrape` needs of a queried page: a DOM the walks can follow, argument
      anchors that are anchors, and well-formed parsed snippets. */
  predicate PageWellFormed(page: Page)
  {
    && Linked(page.dom)
    && (forall k :: 0 <= k < |page.anchors| ==> page.anchors[k] < |page.dom|)
    && SnippetsWellFormed(page.snippets)
  }

  /** `scrape` walks the argument anchors of a page only once its prelude,
      read over the fields `prev`, has passed the check; on such a page no
      walk may dereference nil, as the Go program would crash there. */
  predicate NoPanic(page: Page, prev: PreludeFields)
    requires PageWellFormed(page)
  {
    PreludeError(PreludeOutcome(page.prelude, prev), RawPrelude(page.prelude)).None? ==>
      Complete(FieldWalks(page.dom, page.anchors, {}))
  }

  class Resource {
    var subCategory: string
    var description: string
    var name: string
    var titleName: string
    var examples: seq<Example>
    var argumentDocs: map<string, string>
    var importStatements: seq<string>
    const config: ScrapeConfiguration

    constructor (config: ScrapeConfiguration)
      ensures this.config == config
      ensures subCategory == "" && description == "" && name == "" && titleName == ""
      ensures examples == [] && argumentDocs == map[] && importStatements == []
    {
      this.config := config;
      subCategory, description, name, titleName := "", "", "", "";
      examples, argumentDocs, importStatements := [], map[], [];
    }

    /** `addExampleManifest` together with the two field updates that follow
        it: appends the example of block `b`, of the resource's type, with its
        references, manifest and the call's shared dependency map. */
    method AddExampleManifest(file: File, b: Block, manifest: string, deps: Dependencies)
      requires WellFormedBlock(file.bytes, b) && b.typeLabel == name
      modifies this`examples
      ensures examples == old(examples) + [ExampleOf(Found(b, manifest), config.skipExampleReferences, file.bytes, deps)]
    {
      var refs := FindReferences(config.skipExampleReferences, name, file.bytes, b);
      if refs.Err? {
        assert false;
      }
      examples := examples + [Example(b.nameLabel, manifest, refs.value, deps)];
    }

    /** The body of the block loop of `findExampleBlock` for a block that
        converted to `manifest`: stores a dependency, or appends an example,
        promoting the block's type first when the pass is relaxed and the type
        suffix-matches. Advances the state `st` of the pass by one step. */
    method ResolveBlock(file: File, b: Block, manifest: string, resolved: string, exact: bool, shared: Dependencies,
                        ghost st: PassState, ghost before: seq<Example>, ghost name0: string)
      returns (resolved': string, exact': bool)
      requires WellFormedBlock(file.bytes, b)
      requires st.name == resolved && st.exact == exact && shared.entries == st.deps
      requires Appended(before, examples, st.found, config.skipExampleReferences, file.bytes, shared)
      requires name == if st.found == [] then name0 else st.name
      modifies this`examples, this`name, shared
      ensures var st' := Step(st, b, manifest);
              && st'.name == resolved' && st'.exact == exact' && shared.entries == st'.deps
              && Appended(before, examples, st'.found, config.skipExampleReferences, file.bytes, shared)
              && name == if st'.found == [] then name0 else st'.name
    {
      resolved', exact' := resolved, exact;
      var key := b.typeLabel + "." + b.nameLabel;
      if b.typeLabel != resolved' {
        if exact' {
          shared.Put(key, manifest);
          return;
        }
        var promote := SuffixMatch(b.typeLabel, resolved', 1);
        if promote {
          resolved' := b.typeLabel;
          exact' := true;
        } else {
          shared.Put(key, manifest);
          return;
        }
      }
      name := resolved';
      AppendedSnoc(before, examples, st.found, config.skipExampleReferences, file.bytes, shared, Found(b, manifest));
      AddExampleManifest(file, b, manifest, shared);
    }

    /** One pass of `findExampleBlock` over the blocks, with its own fresh
        dependency map. */
    method FindExamplePass(file: File, blocks: seq<Block>, resolved: string, exact: bool, convert: Block -> Option<string>)
      returns (resolved': string, exact': bool, err: Option<ScrapeError>, ghost deps: Dependencies)
      requires BlocksWellFormed(file.bytes, blocks)
      modifies this`examples, this`name
      ensures var r := RunPass(blocks, convert, Start(resolved, exact));
              && resolved' == r.name && exact' == r.exact
              && (err.None? <==> r.failed.None?)
              && (r.failed.Some? ==> err == Some(ConversionFailure(DepKey(r.failed.value))))
              && fresh(deps) && deps.entries == r.deps
              && Appended(old(examples), examples, r.found, config.skipExampleReferences, file.bytes, deps)
              && name == (if r.found == [] then old(name) else r.name)
    {
      var shared := new Dependencies();
      deps := shared;
      resolved', exact', err := resolved, exact, None;
      ghost var st := Start(resolved, exact);
      ghost var target := RunPass(blocks, convert, st);
      for i := 0 to |blocks|
        invariant st.failed.None? && RunPass(blocks[i..], convert, st) == target
        invariant st.name == resolved' && st.exact == exact' && shared.entries == st.deps
        invariant Appended(old(examples), examples, st.found, config.skipExampleReferences, file.bytes, deps)
        invariant name == if st.found == [] then old(name) else st.name
      {
        var b := blocks[i];
        assert b in blocks;
        RunPassUnfold(blocks, i, convert, st);
        var key := b.typeLabel + "." + b.nameLabel;
        var converted := convert(b);
        if converted.None? {
          err := Some(ConversionFailure(key));
          return;
        }
        resolved', exact' := ResolveBlock(file, b, converted.value, resolved', exact', shared, st, old(examples), old(name));
        st := Step(st, b, converted.value);
      }
      assert blocks[|blocks|..] == [];
    }

    /** `findExampleBlock`: a pass in the given mode, and the relaxed fallback
        when the resource still has no example and the pass ended exact. */
    method FindExampleBlock(file: File, blocks: seq<Block>, resolved: string, exact: bool, convert: Block -> Option<string>)
      returns (resolved': string, err: Option<ScrapeError>, ghost deps: Dependencies)
      requires BlocksWellFormed(file.bytes, blocks)
      modifies this`examples, this`name
      ensures var r := ExampleBlock(blocks, convert, resolved, exact, |old(examples)| > 0);
              && resolved' == r.name
              && (err.None? <==> r.failed.None?)
              && (r.failed.Some? ==> err == Some(ConversionFailure(DepKey(r.failed.value))))
              && fresh(deps) && deps.entries == r.deps
              && Appended(old(examples), examples, r.found, config.skipExampleReferences, file.bytes, deps)
              && name == (if r.found == [] then old(name) else r.name)
      decreases exact
    {
      var exact';
      resolved', exact', err, deps := FindExamplePass(file, blocks, resolved, exact, convert);
      ghost var first := RunPass(blocks, convert, Start(resolved, exact));
      RunPassFacts(blocks, convert, Start(resolved, exact), first);
      if err.None? && |examples| == 0 && exact' {
        ghost var second := RunPass(blocks, convert, Start(first.name, false));
        RunPassFacts(blocks, convert, Start(first.name, false), second);
        resolved', err, deps := FindExampleBlock(file, blocks, resolved', false, convert);
      }
    }

    /** The prelude fields of the resource. */
    function PreludeState(): PreludeFields
      reads this
    {
      PreludeFields(titleName, description, subCategory)
    }

    /** `AddArgumentDoc`: stores the trimmed doc, replacing an earlier one. */
    method AddArgumentDoc(fieldName: string, doc: string)
      modifies this`argumentDocs
      ensures argumentDocs == old(argumentDocs)[fieldName := TrimSpace(doc)]
    {
      argumentDocs := argumentDocs[fieldName := TrimSpace(doc)];
    }

    /** `scrapePrelude` over the texts of the prelude nodes. */
    method ScrapePrelude(nodes: seq<string>) returns (err: Option<ScrapeError>)
      modifies this`titleName, this`description, this`subCategory
      ensures PreludeState() == PreludeOutcome(nodes, old(PreludeState()))
      ensures err == PreludeError(PreludeState(), RawPrelude(nodes))
    {
      var raw := "";
      if |nodes| > 0 {
        raw := nodes[0];
        var f := ScrapePreludeText(raw, PreludeState());
        titleName, description, subCategory := f.title, f.description, f.subCategory;
      }
      if subCategory == "" || titleName == "" {
        return Some(MalformedPrelude(description, subCategory, titleName, raw));
      }
      return None;
    }

    /** `scrapeFieldDocs`: walks every anchor with a fresh name and the page's
        one `processed` set, storing each walk that collected any text. */
    method ScrapeFieldDocs(dom: Dom, anchors: seq<nat>)
      requires Linked(dom) && forall k :: 0 <= k < |anchors| ==> anchors[k] < |dom|
      requires Complete(FieldWalks(dom, anchors, {}))
      modifies this`argumentDocs
      ensures FieldDocs(dom, anchors, {}, old(argumentDocs)) == Some(argumentDocs)
    {
      var processed: set<nat> := {};
      FieldDocsDefined(dom, anchors, {}, argumentDocs);
      ghost var target := FieldDocs(dom, anchors, {}, argumentDocs);
      for i := 0 to |anchors|
        invariant processed <= Indices(dom)
        invariant FieldDocs(dom, anchors[i..], processed, argumentDocs) == target
      {
        assert anchors[i..][1..] == anchors[i + 1..];
        var doc, attrName, processed' := ScrapeDocString(dom, anchors[i], "", processed);
        processed := processed';
        if doc == "" {
          continue;
        }
        AddArgumentDoc(attrName, doc);
      }
      assert anchors[|anchors|..] == [];
    }

    /** `scrapeImportStatements`: appends every statement, trimmed. */
    method ScrapeImportStatements(nodes: seq<string>)
      modifies this`importStatements
      ensures importStatements == old(importStatements) + TrimmedAll(nodes)
    {
      ghost var trimmed := TrimmedAll(nodes);
      for i := 0 to |nodes|
        invariant importStatements == old(importStatements) + trimmed[..i]
      {
        assert trimmed[..i + 1] == trimmed[..i] + [TrimSpace(nodes[i])];
        importStatements := importStatements + [TrimSpace(nodes[i])];
      }
      assert trimmed[..|nodes|] == trimmed;
    }

    /** The body of the snippet loop of `scrapeExamples` for a parsed snippet:
        trims it to its `resource` blocks, resolves them in exact mode and sets
        the resource name to the name resolved. */
    method ScrapeParsed(file: File, resolved: string, convert: Block -> Option<string>, ghost st: ExamplesState)
      returns (resolved': string, err: Option<ScrapeError>)
      requires WellFormed(file)
      requires st.err.None? && st.resolved == resolved && st.name == name && st.views == Views(examples)
      modifies this`examples, this`name
      ensures var st' := SnippetStep(Parsed(file), convert, config, st);
              && err == st'.err
              && (err.None? ==> st'.resolved == resolved' && st'.name == name && st'.views == Views(examples))
    {
      var blocks := TrimToResources(file.blocks);
      ghost var before := examples;
      ghost var p := ExampleBlock(blocks, convert, resolved, true, |examples| > 0);
      ghost var deps: Dependencies;
      resolved', err, deps := FindExampleBlock(file, blocks, resolved, true, convert);
      ParsedStep(file, convert, config, st, p);
      if err.Some? {
        return;
      }
      name := resolved';
      assert Views(before) == st.views;
      assert deps.entries == p.deps;
      ViewsAppended(before, examples, p.found, config.skipExampleReferences, file.bytes, deps);
    }

    /** `scrapeExamples` over the parsed code snippets of a page, threading the
        resolved name from the title. On success the resource name and the
        examples are those of `ScrapeSnippets`. */
    method ScrapeExamples(snippets: seq<Snippet>, convert: Block -> Option<string>) returns (err: Option<ScrapeError>)
      requires SnippetsWellFormed(snippets)
      modifies this`examples, this`name
      ensures var r := ScrapeSnippets(snippets, convert, config, ExamplesState(titleName, old(name), old(Views(examples)), None));
              && err == r.err
              && (err.None? ==> name == r.name && Views(examples) == r.views)
    {
      var resolved := titleName;
      ghost var st := ExamplesState(resolved, name, Views(examples), None);
      ghost var target := ScrapeSnippets(snippets, convert, config, st);
      for i := 0 to |snippets|
        invariant st.err.None? && ScrapeSnippets(snippets[i..], convert, config, st) == target
        invariant st.resolved == resolved && st.name == name && st.views == Views(examples)
      {
        assert snippets[i..][0] == snippets[i] && snippets[i..][1..] == snippets[i + 1..];
        match snippets[i]
        case ParseFailure(text) =>
          if !config.skipExampleErrors {
            return Some(ConfigParseFailure(text));
          }
        case Parsed(file) =>
          resolved, err := ScrapeParsed(file, resolved, convert, st);
          if err.Some? {
            return;
          }
        st := SnippetStep(snippets[i], convert, config, st);
      }
      assert snippets[|snippets|..] == [];
      if name == "" {
        name := resolved;
      }
      return None;
    }

    /** `scrape` on a page: the prelude first, stopping at its error; then the
        argument docs, the import statements and the examples, in that order. */
    method Scrape(page: Page, convert: Block -> Option<string>) returns (err: Option<ScrapeError>)
      requires PageWellFormed(page) && NoPanic(page, PreludeState())
      modifies this`titleName, this`description, this`subCategory, this`argumentDocs, this`importStatements,
               this`examples, this`name
      ensures PreludeState() == PreludeOutcome(page.prelude, old(PreludeState()))
      ensures var pe := PreludeError(PreludeState(), RawPrelude(page.prelude));
              pe.Some? ==> && err == pe
                           && argumentDocs == old(argumentDocs) && importStatements == old(importStatements)
                           && examples == old(examples) && name == old(name)
      ensures PreludeError(PreludeState(), RawPrelude(page.prelude)).None? ==>
                && FieldDocs(page.dom, page.anchors, {}, old(argumentDocs)) == Some(argumentDocs)
                && importStatements == old(importStatements) + TrimmedAll(page.imports)
                && var r := ScrapeSnippets(page.snippets, convert, config,
                                           ExamplesState(titleName, old(name), old(Views(examples)), None));
                   && err == r.err
                   && (err.None? ==> name == r.name && Views(examples) == r.views)
    {
      hide ScrapeSnippets, FieldDocs, PreludeOutcome, Views;
      ghost var views0, name0 := Views(examples), name;
      err := ScrapePrelude(page.prelude);
      if err.Some? {
        return;
      }
      ghost var prelude := PreludeState();
      ScrapeFieldDocs(page.dom, page.anchors);
      ScrapeImportStatements(page.imports);
      assert Views(examples) == views0 && name == name0;
      ghost var docs, imports := argumentDocs, importStatements;
      err := ScrapeExamples(page.snippets, convert);
      assert PreludeState() == prelude && argumentDocs == docs && importStatements == imports;
    }
  }

  /** Resource `r` holds what scraping `page` into a new resource with the
      configuration `config` stores in its own fields: the prelude fields, the
      argument docs, the import statements and the name the snippets give. */
  predicate ScrapedFrom(r: Resource, page: Page, convert: Block -> Option<string>, config: ScrapeConfiguration)
    requires PageWellFormed(page)
    reads r
  {
    var f := PreludeOutcome(page.prelude, PreludeFields("", "", ""));
    && r.config == config
    && r.PreludeState() == f
    && FieldDocs(page.dom, page.anchors, {}, map[]) == Some(r.argumentDocs)
    && r.importStatements == TrimmedAll(page.imports)
    && r.name == ScrapeSnippets(page.snippets, convert, config, ExamplesState(f.title, "", [], None)).name
  }

  /** What scraping one page into a new resource ends in: the error that
      stopped it, or the name the resource is stored under. */
  function PageOutcome(page: Page, convert: Block -> Option<string>, config: ScrapeConfiguration): Result<string, ScrapeError>
    requires PageWellFormed(page)
  {
    var f := PreludeOutcome(page.prelude, PreludeFields("", "", ""));
    match PreludeError(f, RawPrelude(page.prelude))
    case Some(e) => Err(e)
    case None =>
      var r := ScrapeSnippets(page.snippets, convert, config, ExamplesState(f.title, "", [], None));
      if r.err.Some? then Err(r.err.value) else Ok(r.name)
  }

  /** A page that passes the prelude check and has no code snippet names its
      resource by the title. */
  lemma NoSnippetsNamedByTitle(page: Page, convert: Block -> Option<string>, config: ScrapeConfiguration)
    requires PageWellFormed(page) && page.snippets == []
    requires PreludeError(PreludeOutcome(page.prelude, PreludeFields("", "", "")), RawPrelude(page.prelude)).None?
    ensures PageOutcome(page, convert, config) == Ok(PreludeOutcome(page.prelude, PreludeFields("", "", "")).title)
  {
  }

  /** A page without a prelude node fails, whatever else it holds. */
  lemma NoPreludeNoResource(page: Page, convert: Block -> Option<string>, config: ScrapeConfiguration)
    requires PageWellFormed(page) && page.prelude == []
    ensures PageOutcome(page, convert, config) == Err(MalformedPrelude("", "", "", ""))
  {
  }

  /** A page is walked only after its prelude passes: on the example page an
      anchor at the empty `head` would dereference nil, yet a page with that
      anchor and no prelude is within what `scrape` accepts and reports the
      prelude error. */
  lemma HeadAnchorBehindFailedPrelude(convert: Block -> Option<string>, config: ScrapeConfiguration)
    ensures var page := Page([], SubnetPage(), [1], [], []);
            && PageWellFormed(page)
            && FieldWalks(page.dom, page.anchors, {}) == [NilDeref]
            && NoPanic(page, PreludeFields("", "", ""))
            && PageOutcome(page, convert, config) == Err(MalformedPrelude("", "", "", ""))
  {
    EmptyHeadIsNilDeref();
    NoPreludeNoResource(Page([], SubnetPage(), [1], [], []), convert, config);
  }

  /** The outcome of every page, in walk order. */
  function PageOutcomes(pages: seq<Page>, convert: Block -> Option<string>, config: ScrapeConfiguration)
    : (os: seq<Result<string, ScrapeError>>)
    requires forall k :: 0 <= k < |pages| ==> PageWellFormed(pages[k])
    ensures |os| == |pages|
  {
    if pages == [] then []
    else PageOutcomes(pages[..|pages| - 1], convert, config) + [PageOutcome(pages[|pages| - 1], convert, config)]
  }

  lemma {:induction false} PageOutcomeAt(pages: seq<Page>, convert: Block -> Option<string>, config: ScrapeConfiguration,
                                         i: nat)
    requires forall k :: 0 <= k < |pages| ==> PageWellFormed(pages[k])
    requires i < |pages|
    ensures PageOutcomes(pages, convert, config)[i] == PageOutcome(pages[i], convert, config)
  {
    if i < |pages| - 1 {
      PageOutcomeAt(pages[..|pages| - 1], convert, config, i);
    }
  }

  /** What `ScrapeRepo` ends in, given the outcomes of the pages in walk
      order: the first page error, or the resource name of every page. */
  function RepoOutcome(outcomes: seq<Result<string, ScrapeError>>): Result<seq<string>, ScrapeError>
  {
    if outcomes == [] then Ok([])
    else
      match RepoOutcome(outcomes[..|outcomes| - 1])
      case Err(e) => Err(e)
      case Ok(names) =>
        match outcomes[|outcomes| - 1]
        case Err(e) => Err(e)
        case Ok(n) => Ok(names + [n])
  }

  /** The repository scrape succeeds exactly when every page does, and then
      names the resources page by page. */
  lemma {:induction false} RepoSucceeds(outcomes: seq<Result<string, ScrapeError>>)
    ensures RepoOutcome(outcomes).Ok? <==> forall k :: 0 <= k < |outcomes| ==> outcomes[k].Ok?
    ensures RepoOutcome(outcomes).Ok? ==>
              var names := RepoOutcome(outcomes).value;
              |names| == |outcomes| && forall k :: 0 <= k < |outcomes| ==> names[k] == outcomes[k].value
  {
    if outcomes != [] {
      var init := outcomes[..|outcomes| - 1];
      RepoSucceeds(init);
      assert forall k :: 0 <= k < |init| ==> init[k] == outcomes[k];
    }
  }

  /** The repository scrape reports the error of the first page that fails. */
  lemma {:induction false} RepoFirstError(outcomes: seq<Result<string, ScrapeError>>, i: nat)
    requires i < |outcomes| && outcomes[i].Err?
    requires forall k :: 0 <= k < i ==> outcomes[k].Ok?
    ensures RepoOutcome(outcomes) == Err(outcomes[i].error)
  {
    var init := outcomes[..|outcomes| - 1];
    assert forall k :: 0 <= k < |init| ==> init[k] == outcomes[k];
    if i < |init| {
      RepoFirstError(init, i);
    } else {
      RepoSucceeds(init);
    }
  }

  /** A page that fails after a prefix that succeeds decides the outcome. */
  lemma RepoStopsAt(outcomes: seq<Result<string, ScrapeError>>, i: nat)
    requires i < |outcomes| && RepoOutcome(outcomes[..i]).Ok? && outcomes[i].Err?
    ensures RepoOutcome(outcomes) == Err(outcomes[i].error)
  {
    RepoSucceeds(outcomes[..i]);
    assert forall k :: 0 <= k < i ==> outcomes[..i][k] == outcomes[k];
    RepoFirstError(outcomes, i);
  }

  /** The body of the walk callback of `ScrapeRepo` for one markdown page: a
      new resource with the configuration, scraped from the page. */
  method ScrapePage(page: Page, config: ScrapeConfiguration, convert: Block -> Option<string>)
    returns (r: Resource, err: Option<ScrapeError>)
    requires PageWellFormed(page) && NoPanic(page, PreludeFields("", "", ""))
    ensures fresh(r)
    ensures var o := PageOutcome(page, convert, config);
            && (err.None? <==> o.Ok?)
            && (o.Err? ==> err == Some(o.error))
            && (o.Ok? ==> && r.name == o.value && ScrapedFrom(r, page, convert, config)
                          && var f := PreludeOutcome(page.prelude, PreludeFields("", "", ""));
                             Views(r.examples) == ScrapeSnippets(page.snippets, convert, config,
                                                                 ExamplesState(f.title, "", [], None)).views)
  {
    r := new Resource(config);
    assert Views(r.examples) == [];
    err := r.Scrape(page, convert);
  }

  /** The names a sequence of names holds. */
  function NameSet(names: seq<string>): set<string>
  {
    set k | 0 <= k < |names| :: names[k]
  }

  /** `m` is `before` with one entry stored under each of `names`: it has
      their keys in addition, and every other entry is as it was. */
  predicate Stored<R(==)>(m: map<string, R>, before: map<string, R>, names: seq<string>)
  {
    && m.Keys == before.Keys + NameSet(names)
    && forall n :: n in before && n !in NameSet(names) ==> m[n] == before[n]
  }

  lemma StoredNothing<R>(m: map<string, R>)
    ensures Stored(m, m, [])
  {
  }

  lemma StoredSnoc<R>(m: map<string, R>, before: map<string, R>, names: seq<string>, n: string, r: R)
    requires Stored(m, before, names)
    ensures Stored(m[n := r], before, names + [n])
  {
    NameSetSnoc(names, n);
  }

  lemma NameSetSnoc(names: seq<string>, n: string)
    ensures NameSet(names + [n]) == NameSet(names) + {n}
  {
    var s := names + [n];
    forall x | x in NameSet(s)
      ensures x in NameSet(names) + {n}
    {
      var k :| 0 <= k < |s| && s[k] == x;
      if k < |names| {
        assert names[k] == x;
      }
    }
    forall x | x in NameSet(names)
      ensures x in NameSet(s)
    {
      var k :| 0 <= k < |names| && names[k] == x;
      assert s[k] == x;
    }
    assert s[|names|] == n;
  }

  /** Position `k` holds the last occurrence of its name in `names`. */
  predicate LastOccurrence(names: seq<string>, k: nat)
  {
    k < |names| && forall l :: k < l < |names| ==> names[l] != names[k]
  }

  /** `m` holds under each name of `names` the value `rs` gives its last
      occurrence. */
  ghost predicate LastWins<R>(m: map<string, R>, names: seq<string>, rs: seq<R>)
    requires |rs| == |names|
  {
    forall k: nat :: LastOccurrence(names, k) ==> names[k] in m && m[names[k]] == rs[k]
  }

  lemma LastWinsNothing<R>(m: map<string, R>)
    ensures LastWins(m, [], [])
  {
  }

  /** Storing one more value under its name makes it the last occurrence. */
  lemma LastWinsSnoc<R>(m: map<string, R>, names: seq<string>, rs: seq<R>, n: string, r: R)
    requires |rs| == |names| && LastWins(m, names, rs)
    ensures LastWins(m[n := r], names + [n], rs + [r])
  {
    var names', rs' := names + [n], rs + [r];
    forall k: nat | LastOccurrence(names', k)
      ensures names'[k] in m[n := r] && m[n := r][names'[k]] == rs'[k]
    {
      if k < |names| {
        assert names'[|names|] != names'[k] && names'[k] == names[k] && rs'[k] == rs[k];
        forall l | k < l < |names| ensures names[l] != names[k] {
          assert names'[l] == names[l];
        }
        assert LastOccurrence(names, k);
      }
    }
  }

  /** The metadata of a provider: its resources by name. */
  class ProviderMetadata {
    const name: string
    var resources: map<string, Resource>

    constructor (name: string)
      ensures this.name == name && resources == map[]
    {
      this.name := name;
      resources := map[];
    }

    /** Page `i` of the walk: scrapes it into a new resource and, when that
        succeeds, stores the resource under its name. */
    method ScrapeInto(pages: seq<Page>, i: nat, config: ScrapeConfiguration, convert: Block -> Option<string>)
      returns (err: Option<ScrapeError>, ghost r: Resource)
      requires forall k :: 0 <= k < |pages| ==> PageWellFormed(pages[k])
      requires i < |pages| && NoPanic(pages[i], PreludeFields("", "", ""))
      modifies this`resources
      ensures var o := PageOutcomes(pages, convert, config)[i];
              && (err.None? <==> o.Ok?)
              && (o.Err? ==> err == Some(o.error) && resources == old(resources))
              && (o.Ok? ==> && fresh(r) && r.name == o.value && ScrapedFrom(r, pages[i], convert, config)
                            && resources == old(resources)[o.value := r])
    {
      PageOutcomeAt(pages, convert, config, i);
      var res;
      res, err := ScrapePage(pages[i], config, convert);
      r := res;
      if err.Some? {
        return;
      }
      resources := resources[res.name := res];
    }

    /** `ScrapeRepo` over the markdown pages of the repository in walk order:
        each page is scraped into a new resource, stored under its name (a
        later page with the same name replaces it); the first failing page
        stops the walk with its error. */
    method ScrapeRepo(pages: seq<Page>, config: ScrapeConfiguration, convert: Block -> Option<string>)
      returns (err: Option<ScrapeError>, ghost rs: seq<Resource>)
      requires forall k :: 0 <= k < |pages| ==> PageWellFormed(pages[k])
      requires forall k :: 0 <= k < |pages| && RepoOutcome(PageOutcomes(pages, convert, config)[..k]).Ok? ==>
                 NoPanic(pages[k], PreludeFields("", "", ""))
      modifies this`resources
      ensures var o := RepoOutcome(PageOutcomes(pages, convert, config));
              && (err.None? <==> o.Ok?)
              && (o.Err? ==> err == Some(o.error))
              && (o.Ok? ==> && Stored(resources, old(resources), o.value)
                            && |rs| == |o.value| == |pages|
                            && (forall k :: 0 <= k < |pages| ==>
                                  fresh(rs[k]) && rs[k].name == o.value[k] && ScrapedFrom(rs[k], pages[k], convert, config))
                            && LastWins(resources, o.value, rs))
    {
      // The walk needs only what `ScrapeInto` promises of each page.
      hide PageOutcome, PageWellFormed, NoPanic, ScrapedFrom, Stored, LastWins;
      ghost var outcomes := PageOutcomes(pages, convert, config);
      ghost var names: seq<string> := [];
      rs := [];
      StoredNothing(resources);
      LastWinsNothing(resources);
      for i := 0 to |pages|
        invariant RepoOutcome(outcomes[..i]) == Ok(names)
        invariant |names| == |rs| == i
        invariant Stored(resources, old(resources), names)
        invariant forall k :: 0 <= k < i ==>
                    fresh(rs[k]) && rs[k].name == names[k] && ScrapedFrom(rs[k], pages[k], convert, config)
        invariant LastWins(resources, names, rs)
      {
        assert outcomes[..i + 1][..i] == outcomes[..i];
        ghost var stored := resources;
        ghost var r: Resource;
        err, r := ScrapeInto(pages, i, config, convert);
        if err.Some? {
          RepoStopsAt(outcomes, i);
          return;
        }
        StoredSnoc(stored, old(resources), names, r.name, r);
        LastWinsSnoc(stored, names, rs, r.name, r);
        names, rs := names + [r.name], rs + [r];
      }
      assert outcomes[..|pages|] == outcomes;
      return None, rs;
    }
  }
}
