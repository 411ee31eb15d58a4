/** The legacy scraper of `main.go`, an older copy of the resource scraper:
    no dependency maps, no import statements, no scrape configuration, a
    stricter prelude check, and a block resolver that converts only the
    blocks it accepts. */
module Legacy {
  import opened Wrappers
  import opened Strings
  import opened Hcl
  import opened Errors
  import opened Matching
  import opened References
  import opened Resolver
  import opened Prelude
  import opened DocTree
  import opened Meta

  /** `ResourceExample`: a manifest and its references, nothing else. */
  datatype LegacyExample = LegacyExample(manifest: string, references: map<string, string>)

  /** The references the legacy scraper records for a block of the
      resource's type: those of the longest prefix of attributes that are all
      `root.….attr` traversals. */
  function LegacyRefs(b: Block): map<string, string>
  {
    RecordedMap(LegacyQualifying(b.attrs))
  }

  /** For a block with distinct attribute names, an attribute has a recorded
      reference exactly when it lies in the qualifying prefix, and then the
      reference is its `root.attr` text. */
  lemma LegacyRefsSpec(b: Block)
    requires DistinctNames(b.attrs)
    ensures var refs, pre := LegacyRefs(b), LegacyQualifying(b.attrs);
            forall k :: 0 <= k < |b.attrs| ==>
              && (b.attrs[k].name in refs <==> k < |pre|)
              && (k < |pre| ==> refs[b.attrs[k].name] == LegacyRef(b.attrs[k].expr))
  {
    var pre := LegacyQualifying(b.attrs);
    DistinctPrefixNoConflict(b.attrs, pre);
    RecordedMapRecords(pre);
    var refs := LegacyRefs(b);
    forall k | 0 <= k < |b.attrs|
      ensures (b.attrs[k].name in refs <==> k < |pre|)
      ensures k < |pre| ==> refs[b.attrs[k].name] == LegacyRef(b.attrs[k].expr)
    {
      if b.attrs[k].name in refs {
        assert b.attrs[k].name in RefNames(pre);
        var i :| 0 <= i < |pre| && pre[i].1 != "" && pre[i].0 == b.attrs[k].name;
        assert i == k;
      }
      if k < |pre| {
        assert pre[k].1 != "";
      }
    }
  }

  /** A map the legacy `findReferences` returns for a prefix-qualifying block is `LegacyRefs`. */
  lemma RecordsLegacyRefs(b: Block, refs: map<string, string>)
    requires DistinctNames(b.attrs) && Records(LegacyQualifying(b.attrs), refs)
    ensures refs == LegacyRefs(b)
  {
    var pre := LegacyQualifying(b.attrs);
    DistinctPrefixNoConflict(b.attrs, pre);
    RecordedMapRecords(pre);
    RecordsUnique(pre, refs, RecordedMap(pre));
  }

  /** What one legacy pass threads through the blocks: the resolved name,
      whether it is in exact mode, the examples found, and the block whose
      conversion failed, if any. */
  datatype LegacyPass = LegacyPass(name: string, exact: bool, found: seq<Found>, failed: Option<Block>)

  function LegacyStart(name: string, exact: bool): LegacyPass
  {
    LegacyPass(name, exact, [], None)
  }

  /** The legacy loop takes a block of the resolved type, or in relaxed mode
      one whose type suffix-matches the resolved name; it skips every other. */
  predicate Accepts(name: string, exact: bool, b: Block)
  {
    b.typeLabel == name || (!exact && SuffixMatches(b.typeLabel, name, 1))
  }

  /** One block of a legacy pass: a skipped block is never converted; an
      accepted one (promoting its type first when it only suffix-matches) is
      converted and becomes an example, or fails the pass when it does not
      convert. */
  function LegacyStep(st: LegacyPass, b: Block, convert: Block -> Option<string>): LegacyPass
  {
    if !Accepts(st.name, st.exact, b) then st
    else
      var st' := if b.typeLabel == st.name then st else st.(name := b.typeLabel, exact := true);
      match convert(b)
      case None => st'.(failed := Some(b))
      case Some(m) => st'.(found := st'.found + [Found(b, m)])
  }

  /** One legacy pass over the blocks, stopping at the first failure. */
  function LegacyRun(blocks: seq<Block>, convert: Block -> Option<string>, st: LegacyPass): LegacyPass
    requires st.failed.None?
    decreases |blocks|
  {
    if blocks == [] then st
    else
      var st' := LegacyStep(st, blocks[0], convert);
      if st'.failed.Some? then st' else LegacyRun(blocks[1..], convert, st')
  }

  /** A legacy pass fails only at a block that does not convert; it only
      appends examples; an exact pass keeps its name and mode; a relaxed pass
      that succeeds turns exact only by finding an example. */
  lemma {:induction false} LegacyRunFacts(blocks: seq<Block>, convert: Block -> Option<string>, st: LegacyPass,
                                          r: LegacyPass)
    requires st.failed.None? && r == LegacyRun(blocks, convert, st)
    ensures r.failed.Some? ==> r.failed.value in blocks && convert(r.failed.value).None?
    ensures |st.found| <= |r.found| && r.found[..|st.found|] == st.found
    ensures st.exact ==> r.name == st.name && r.exact
    ensures !st.exact && r.exact && r.failed.None? ==> |st.found| < |r.found|
    decreases |blocks|
  {
    if blocks != [] {
      var b := blocks[0];
      var st' := LegacyStep(st, b, convert);
      if st'.failed.None? {
        LegacyRunFacts(blocks[1..], convert, st', r);
        assert r.found[..|st'.found|][..|st.found|] == r.found[..|st.found|];
        if r.failed.Some? {
          assert r.failed.value in blocks[1..];
        }
      }
    }
  }

  /** The blocks of a given type, in order. */
  function MatchingBlocks(blocks: seq<Block>, name: string): (ms: seq<Block>)
    ensures forall b :: b in ms <==> b in blocks && b.typeLabel == name
  {
    if blocks == [] then []
    else (if blocks[0].typeLabel == name then [blocks[0]] else []) + MatchingBlocks(blocks[1..], name)
  }

  /** Blocks paired with their manifests. */
  function Converted(bs: seq<Block>, convert: Block -> Option<string>): (fs: seq<Found>)
    requires AllConvert(bs, convert)
    ensures |fs| == |bs| && forall k :: 0 <= k < |bs| ==> fs[k] == Found(bs[k], convert(bs[k]).value)
  {
    seq(|bs|, k requires 0 <= k < |bs| => Found(bs[k], convert(bs[k]).value))
  }

  /** An exact legacy pass converts only the blocks of the resolved type: it
      fails exactly when one of them does not convert, and otherwise finds
      all of them, in order. Blocks of other types may fail to convert. */
  lemma {:induction false} LegacyExactPass(blocks: seq<Block>, convert: Block -> Option<string>, st: LegacyPass,
                                           r: LegacyPass)
    requires st.failed.None? && st.exact && r == LegacyRun(blocks, convert, st)
    ensures r.failed.None? <==> AllConvert(MatchingBlocks(blocks, st.name), convert)
    ensures r.failed.None? ==> r.found == st.found + Converted(MatchingBlocks(blocks, st.name), convert)
    decreases |blocks|
  {
    if blocks == [] {
      assert st.found + [] == st.found;
    } else if blocks[0].typeLabel != st.name {
      assert LegacyStep(st, blocks[0], convert) == st;
      assert MatchingBlocks(blocks, st.name) == MatchingBlocks(blocks[1..], st.name);
      LegacyExactPass(blocks[1..], convert, st, r);
    } else if convert(blocks[0]).None? {
      LegacyExactPassFails(blocks, convert, st, r);
    } else {
      var b := blocks[0];
      var st' := st.(found := st.found + [Found(b, convert(b).value)]);
      assert LegacyStep(st, b, convert) == st';
      LegacyExactPass(blocks[1..], convert, st', r);
      assert MatchingBlocks(blocks, st.name) == [b] + MatchingBlocks(blocks[1..], st.name);
      ExactPassCons(st.found, b, MatchingBlocks(blocks[1..], st.name), convert, r.failed.None?, r.found);
    }
  }

  /** An exact pass fails at a first block of the resolved type that does not convert. */
  lemma LegacyExactPassFails(blocks: seq<Block>, convert: Block -> Option<string>, st: LegacyPass, r: LegacyPass)
    requires st.failed.None? && st.exact && r == LegacyRun(blocks, convert, st)
    requires blocks != [] && blocks[0].typeLabel == st.name && convert(blocks[0]).None?
    ensures r.failed.Some? && !AllConvert(MatchingBlocks(blocks, st.name), convert)
  {
    var b := blocks[0];
    assert r.failed == Some(b);
    assert MatchingBlocks(blocks, st.name)[0] == b;
  }

  /** What an exact pass finds after a first block that converts. */
  lemma ExactPassCons(found: seq<Found>, b: Block, rest: seq<Block>, convert: Block -> Option<string>, ok: bool,
                      rfound: seq<Found>)
    requires convert(b).Some?
    requires ok <==> AllConvert(rest, convert)
    requires ok ==> rfound == found + [Found(b, convert(b).value)] + Converted(rest, convert)
    ensures ok <==> AllConvert([b] + rest, convert)
    ensures ok ==> rfound == found + Converted([b] + rest, convert)
  {
    ConvertedCons(b, rest, convert);
    if ok {
      assert found + [Found(b, convert(b).value)] + Converted(rest, convert) ==
             found + ([Found(b, convert(b).value)] + Converted(rest, convert));
    }
  }

  lemma ConvertedCons(b: Block, rest: seq<Block>, convert: Block -> Option<string>)
    requires convert(b).Some?
    ensures AllConvert([b] + rest, convert) <==> AllConvert(rest, convert)
    ensures AllConvert(rest, convert) ==>
              Converted([b] + rest, convert) == [Found(b, convert(b).value)] + Converted(rest, convert)
  {
    var ms := [b] + rest;
    assert forall k :: 0 <= k < |rest| ==> rest[k] == ms[k + 1];
    assert forall k :: 1 <= k < |ms| ==> ms[k] == rest[k - 1];
  }

  /** A relaxed legacy pass over blocks none of which has the resolved type:
      without a suffix match it skips every block and keeps its name and mode;
      otherwise the first suffix-matching block is promoted, and from then on
      only blocks of the promoted type are converted and taken. The pass fails
      exactly when the promoted block or one of those does not convert. */
  lemma {:induction false} LegacyRelaxedPass(blocks: seq<Block>, convert: Block -> Option<string>, name: string,
                                             found: seq<Found>)
    requires MatchingBlocks(blocks, name) == []
    ensures var r := LegacyRun(blocks, convert, LegacyPass(name, false, found, None));
            match PromotionIndex(blocks, name)
            case None => r == LegacyPass(name, false, found, None)
            case Some(p) =>
              var b, t := blocks[p], blocks[p].typeLabel;
              var rest := MatchingBlocks(blocks[p + 1..], t);
              && r.name == t && r.exact
              && (r.failed.None? <==> convert(b).Some? && AllConvert(rest, convert))
              && (r.failed.None? ==> r.found == found + [Found(b, convert(b).value)] + Converted(rest, convert))
    decreases |blocks|
  {
    var st := LegacyPass(name, false, found, None);
    var r := LegacyRun(blocks, convert, st);
    if blocks != [] {
      var b, tail := blocks[0], blocks[1..];
      assert MatchingBlocks(tail, name) == [];
      if SuffixMatches(b.typeLabel, name, 1) {
        assert blocks == [b] + tail && blocks[0 + 1..] == tail;
        LegacyPromotion(b, tail, convert, name, found, r);
      } else {
        assert LegacyStep(st, b, convert) == st;
        LegacyRelaxedPass(tail, convert, name, found);
        match PromotionIndex(tail, name)
        case None =>
        case Some(q) =>
          assert blocks[q + 1] == tail[q];
          assert blocks[q + 1 + 1..] == tail[q + 1..];
      }
    }
  }

  /** A relaxed pass whose first block suffix-matches the resolved name
      promotes that block's type and continues as an exact pass. */
  lemma LegacyPromotion(b: Block, tail: seq<Block>, convert: Block -> Option<string>, name: string,
                        found: seq<Found>, r: LegacyPass)
    requires b.typeLabel != name && SuffixMatches(b.typeLabel, name, 1)
    requires r == LegacyRun([b] + tail, convert, LegacyPass(name, false, found, None))
    ensures r.name == b.typeLabel && r.exact
    ensures r.failed.None? <==> convert(b).Some? && AllConvert(MatchingBlocks(tail, b.typeLabel), convert)
    ensures r.failed.None? ==>
              r.found == found + [Found(b, convert(b).value)] + Converted(MatchingBlocks(tail, b.typeLabel), convert)
  {
    assert ([b] + tail)[0] == b && ([b] + tail)[1..] == tail;
    if convert(b).Some? {
      var st' := LegacyPass(b.typeLabel, true, found + [Found(b, convert(b).value)], None);
      assert LegacyStep(LegacyPass(name, false, found, None), b, convert) == st';
      LegacyExactPass(tail, convert, st', r);
      LegacyRunFacts(tail, convert, st', r);
    }
  }

  /** Legacy `findExampleBlock`: a pass in the given mode, and the relaxed
      fallback when the pass succeeded, the resource still has no example
      and the pass ended exact. */
  function LegacyExampleBlock(blocks: seq<Block>, convert: Block -> Option<string>, name: string, exact: bool,
                              hadExamples: bool): LegacyPass
  {
    var first := LegacyRun(blocks, convert, LegacyStart(name, exact));
    if first.failed.None? && !hadExamples && first.found == [] && first.exact
    then LegacyRun(blocks, convert, LegacyStart(first.name, false))
    else first
  }

  /** An exact call is the exact pass when the snippet has blocks of the
      resolved type or the resource already has examples; with neither, it is
      the relaxed pass from the same name. */
  lemma LegacyExampleBlockExact(blocks: seq<Block>, convert: Block -> Option<string>, name: string, hadExamples: bool)
    ensures var r := LegacyExampleBlock(blocks, convert, name, true, hadExamples);
            if MatchingBlocks(blocks, name) != [] || hadExamples then r == LegacyRun(blocks, convert, LegacyStart(name, true))
            else r == LegacyRun(blocks, convert, LegacyStart(name, false))
  {
    var first := LegacyRun(blocks, convert, LegacyStart(name, true));
    LegacyExactPass(blocks, convert, LegacyStart(name, true), first);
    LegacyRunFacts(blocks, convert, LegacyStart(name, true), first);
    if MatchingBlocks(blocks, name) == [] {
      assert [] + Converted([], convert) == [];
    } else if first.failed.None? {
      assert first.found != [];
    }
  }

  /** The examples appended for the blocks found. */
  function LegacyExamplesOf(found: seq<Found>): (es: seq<LegacyExample>)
    ensures |es| == |found| && forall k :: 0 <= k < |found| ==> es[k] == LegacyExample(found[k].manifest, LegacyRefs(found[k].block))
  {
    seq(|found|, k requires 0 <= k < |found| => LegacyExample(found[k].manifest, LegacyRefs(found[k].block)))
  }

  lemma LegacyExamplesSnoc(found: seq<Found>, f: Found)
    ensures LegacyExamplesOf(found + [f]) == LegacyExamplesOf(found) + [LegacyExample(f.manifest, LegacyRefs(f.block))]
  {
    assert forall k :: 0 <= k < |found| ==> (found + [f])[k] == found[k];
  }

  /** What the XPath queries of one page yield for the legacy scraper: the
      prelude texts, the DOM with the argument anchors, and the code snippets. */
  datatype LegacyPage = LegacyPage(prelude: seq<string>, dom: Dom, anchors: seq<nat>, snippets: seq<Snippet>)

  predicate LegacyPageWellFormed(page: LegacyPage)
  {
    && Linked(page.dom)
    && (forall k :: 0 <= k < |page.anchors| ==> page.anchors[k] < |page.dom|)
    && SnippetsWellFormed(page.snippets)
  }

  /** The legacy `Scrape` walks the argument anchors of a page only once its
      prelude, read over the fields `prev`, has passed the legacy check; on
      such a page no walk may dereference nil, as the Go program would crash
      there. */
  predicate LegacyNoPanic(page: LegacyPage, prev: PreludeFields)
    requires LegacyPageWellFormed(page)
  {
    LegacyPreludeError(PreludeOutcome(page.prelude, prev)).None? ==>
      Complete(FieldWalks(page.dom, page.anchors, {}))
  }

  /** The legacy prelude check: the description, the subcategory and the
      title must all be non-empty. */
  function LegacyPreludeError(f: PreludeFields): (err: Option<ScrapeError>)
    ensures err.None? <==> f.description != "" && f.subCategory != "" && f.title != ""
    ensures err.Some? ==> err.value == IncompletePrelude(f.description, f.subCategory, f.title)
  {
    if f.description == "" || f.subCategory == "" || f.title == "" then
      Some(IncompletePrelude(f.description, f.subCategory, f.title))
    else None
  }

  /** The legacy check rejects everything the current one rejects, and in
      addition exactly the preludes with an empty description. */
  lemma LegacyPreludeStricter(f: PreludeFields, raw: string)
    ensures PreludeError(f, raw).Some? ==> LegacyPreludeError(f).Some?
    ensures LegacyPreludeError(f).Some? && PreludeError(f, raw).None? <==>
              f.description == "" && f.subCategory != "" && f.title != ""
  {
  }

  /** What the legacy `scrapeExamples` has made of a page so far: the resolved
      name it threads, the resource name, the examples, and the error that
      stopped it. */
  datatype LegacyExamplesState = LegacyExamplesState(resolved: string, name: string, examples: seq<LegacyExample>,
                                                     err: Option<ScrapeError>)

  /** One snippet of the legacy `scrapeExamples`: a parse failure is always an
      error; a parsed snippet resolves its `resource` blocks in exact mode
      under the threaded name, appends the examples found and sets the
      resource name to the name resolved. */
  function LegacySnippetStep(snippet: Snippet, convert: Block -> Option<string>, st: LegacyExamplesState)
    : LegacyExamplesState
  {
    match snippet
    case ParseFailure(text) => st.(err := Some(ConfigParseFailure(text)))
    case Parsed(file) =>
      var p := LegacyExampleBlock(ResourceBlocks(file.blocks), convert, st.resolved, true, |st.examples| > 0);
      if p.failed.Some? then st.(err := Some(ConversionFailure(DepKey(p.failed.value))))
      else LegacyExamplesState(p.name, p.name, st.examples + LegacyExamplesOf(p.found), st.err)
  }

  /** The legacy `scrapeExamples` over the snippets from state `st` on,
      stopping at the first error. There is no default name at the end. */
  function LegacySnippets(snippets: seq<Snippet>, convert: Block -> Option<string>, st: LegacyExamplesState)
    : LegacyExamplesState
    requires st.err.None?
    decreases |snippets|
  {
    if snippets == [] then st
    else
      var st' := LegacySnippetStep(snippets[0], convert, st);
      if st'.err.Some? then st' else LegacySnippets(snippets[1..], convert, st')
  }

  /** A parse failure anywhere stops the legacy scrape with its error, unless
      an earlier snippet failed first. */
  lemma {:induction false} LegacyParseFailureFatal(snippets: seq<Snippet>, convert: Block -> Option<string>,
                                                   st: LegacyExamplesState)
    requires st.err.None? && snippets != [] && snippets[0].ParseFailure?
    ensures LegacySnippets(snippets, convert, st).err == Some(ConfigParseFailure(snippets[0].text))
  {
  }

  /** Without code snippets the legacy resource name stays as it was: it
      does not default to the title. */
  lemma LegacyNoSnippetsKeepName(convert: Block -> Option<string>, st: LegacyExamplesState)
    requires st.err.None?
    ensures LegacySnippets([], convert, st) == st
  {
  }

  /** The legacy resource: no import statements, no configuration, and
      examples without dependency maps. */
  class LegacyResource {
    var subCategory: string
    var description: string
    var name: string
    var titleName: string
    var examples: seq<LegacyExample>
    var argumentDocs: map<string, string>

    constructor ()
      ensures subCategory == "" && description == "" && name == "" && titleName == ""
      ensures examples == [] && argumentDocs == map[]
    {
      subCategory, description, name, titleName := "", "", "", "";
      examples, argumentDocs := [], map[];
    }

    function PreludeState(): PreludeFields
      reads this
    {
      PreludeFields(titleName, description, subCategory)
    }

    /** The legacy `addExampleManifest`: appends the manifest with the
        references of `b`, which are recorded only when the block is of the
        resource's type. */
    method AddExampleManifest(b: Block, manifest: string)
      requires DistinctNames(b.attrs)
      modifies this`examples
      ensures examples == old(examples) + [LegacyExample(manifest, if b.typeLabel == name then LegacyRefs(b) else map[])]
    {
      var refs := LegacyFindReferences(name, b);
      if refs.Err? {
        assert false;
      }
      if b.typeLabel == name {
        RecordsLegacyRefs(b, refs.value);
      }
      examples := examples + [LegacyExample(manifest, refs.value)];
    }

    /** One pass of the legacy `findExampleBlock` over the blocks. */
    method FindExamplePass(blocks: seq<Block>, resolved: string, exact: bool, convert: Block -> Option<string>)
      returns (resolved': string, exact': bool, err: Option<ScrapeError>)
      requires forall k :: 0 <= k < |blocks| ==> DistinctNames(blocks[k].attrs)
      modifies this`examples, this`name
      ensures var r := LegacyRun(blocks, convert, LegacyStart(resolved, exact));
              && (err.None? <==> r.failed.None?)
              && (r.failed.Some? ==> err == Some(ConversionFailure(DepKey(r.failed.value))))
              && (err.None? ==> && resolved' == r.name && exact' == r.exact
                                && examples == old(examples) + LegacyExamplesOf(r.found)
                                && name == (if r.found == [] then old(name) else r.name))
    {
      resolved', exact', err := resolved, exact, None;
      ghost var st := LegacyStart(resolved, exact);
      ghost var target := LegacyRun(blocks, convert, st);
      for i := 0 to |blocks|
        invariant st.failed.None? && LegacyRun(blocks[i..], convert, st) == target
        invariant st.name == resolved' && st.exact == exact'
        invariant examples == old(examples) + LegacyExamplesOf(st.found)
        invariant name == if st.found == [] then old(name) else st.name
      {
        assert blocks[i..][0] == blocks[i] && blocks[i..][1..] == blocks[i + 1..];
        var ok;
        resolved', exact', ok := TakeBlock(blocks[i], resolved', exact', convert, st, old(examples), old(name));
        if !ok {
          return resolved', exact', Some(ConversionFailure(DepKey(blocks[i])));
        }
        st := LegacyStep(st, blocks[i], convert);
      }
      assert blocks[|blocks|..] == [];
    }

    /** The body of the block loop of the legacy `findExampleBlock`: one
        `LegacyStep`, reporting whether the block converted. */
    method TakeBlock(b: Block, resolved: string, exact: bool, convert: Block -> Option<string>,
                     ghost st: LegacyPass, ghost before: seq<LegacyExample>, ghost name0: string)
      returns (resolved': string, exact': bool, ok: bool)
      requires DistinctNames(b.attrs) && st.failed.None? && st.name == resolved && st.exact == exact
      requires examples == before + LegacyExamplesOf(st.found)
      requires name == if st.found == [] then name0 else st.name
      modifies this`examples, this`name
      ensures var st' := LegacyStep(st, b, convert);
              && (ok <==> st'.failed.None?)
              && (!ok ==> st'.failed == Some(b))
              && (ok ==> && resolved' == st'.name && exact' == st'.exact
                         && examples == before + LegacyExamplesOf(st'.found)
                         && name == if st'.found == [] then name0 else st'.name)
    {
      resolved', exact', ok := resolved, exact, true;
      if b.typeLabel != resolved' {
        if exact' {
          return;
        }
        var promote := SuffixMatch(b.typeLabel, resolved', 1);
        if !promote {
          return;
        }
        resolved', exact' := b.typeLabel, true;
      }
      var converted := convert(b);
      if converted.None? {
        return resolved', exact', false;
      }
      name := resolved';
      AddExampleManifest(b, converted.value);
      LegacyExamplesSnoc(st.found, Found(b, converted.value));
    }

    /** The legacy `findExampleBlock`: a pass in the given mode, and the
        relaxed fallback when the resource still has no example and the pass
        ended exact. */
    method FindExampleBlock(blocks: seq<Block>, resolved: string, exact: bool, convert: Block -> Option<string>)
      returns (resolved': string, err: Option<ScrapeError>)
      requires forall k :: 0 <= k < |blocks| ==> DistinctNames(blocks[k].attrs)
      modifies this`examples, this`name
      ensures var r := LegacyExampleBlock(blocks, convert, resolved, exact, |old(examples)| > 0);
              && (err.None? <==> r.failed.None?)
              && (r.failed.Some? ==> err == Some(ConversionFailure(DepKey(r.failed.value))))
              && (err.None? ==> && resolved' == r.name
                                && examples == old(examples) + LegacyExamplesOf(r.found)
                                && name == (if r.found == [] then old(name) else r.name))
      decreases exact
    {
      var exact';
      resolved', exact', err := FindExamplePass(blocks, resolved, exact, convert);
      ghost var first := LegacyRun(blocks, convert, LegacyStart(resolved, exact));
      LegacyRunFacts(blocks, convert, LegacyStart(resolved, exact), first);
      if err.None? && |examples| == 0 && exact' {
        ghost var second := LegacyRun(blocks, convert, LegacyStart(first.name, false));
        LegacyRunFacts(blocks, convert, LegacyStart(first.name, false), second);
        resolved', err := FindExampleBlock(blocks, resolved', false, convert);
      }
    }

    /** The legacy `AddArgumentDoc`: stores the trimmed doc, replacing an earlier one. */
    method AddArgumentDoc(fieldName: string, doc: string)
      modifies this`argumentDocs
      ensures argumentDocs == old(argumentDocs)[fieldName := TrimSpace(doc)]
    {
      argumentDocs := argumentDocs[fieldName := TrimSpace(doc)];
    }

    /** The legacy `scrapePrelude`: the same field rules, with the stricter check. */
    method ScrapePrelude(nodes: seq<string>) returns (err: Option<ScrapeError>)
      modifies this`titleName, this`description, this`subCategory
      ensures PreludeState() == PreludeOutcome(nodes, old(PreludeState()))
      ensures err == LegacyPreludeError(PreludeState())
    {
      if |nodes| > 0 {
        var f := ScrapePreludeText(nodes[0], PreludeState());
        titleName, description, subCategory := f.title, f.description, f.subCategory;
      }
      if description == "" || subCategory == "" || titleName == "" {
        return Some(IncompletePrelude(description, subCategory, titleName));
      }
      return None;
    }

    /** The legacy `scrapeFieldDocs`, the same walk as the current one. */
    method ScrapeFieldDocs(dom: Dom, anchors: seq<nat>)
      requires Linked(dom) && forall k :: 0 <= k < |anchors| ==> anchors[k] < |dom|
      requires Complete(FieldWalks(dom, anchors, {}))
      modifies this`argumentDocs
      ensures FieldDocs(dom, anchors, {}, old(argumentDocs)) == Some(argumentDocs)
    {
      var processed: set<nat> := {};
      FieldDocsDefined(dom, anchors, {}, argumentDocs);
      ghost var target := FieldDocs(dom, anchors, {}, argumentDocs);
      for i := 0 to |anchors|
        invariant processed <= Indices(dom)
        invariant FieldDocs(dom, anchors[i..], processed, argumentDocs) == target
      {
        assert anchors[i..][1..] == anchors[i + 1..];
        var doc, attrName, processed' := ScrapeDocString(dom, anchors[i], "", processed);
        processed := processed';
        if doc == "" {
          continue;
        }
        AddArgumentDoc(attrName, doc);
      }
      assert anchors[|anchors|..] == [];
    }

    /** The body of the snippet loop of the legacy `scrapeExamples` for a
        parsed snippet. */
    method ScrapeParsed(file: File, resolved: string, convert: Block -> Option<string>, ghost st: LegacyExamplesState)
      returns (resolved': string, err: Option<ScrapeError>)
      requires WellFormed(file)
      requires st.err.None? && st.resolved == resolved && st.name == name && st.examples == examples
      modifies this`examples, this`name
      ensures var st' := LegacySnippetStep(Parsed(file), convert, st);
              && err == st'.err
              && (err.None? ==> st'.resolved == resolved' && st'.name == name && st'.examples == examples)
    {
      var blocks := TrimToResources(file.blocks);
      forall k | 0 <= k < |blocks|
        ensures DistinctNames(blocks[k].attrs)
      {
        assert blocks[k] in blocks;
      }
      resolved', err := FindExampleBlock(blocks, resolved, true, convert);
      if err.Some? {
        return;
      }
      name := resolved';
    }

    /** The legacy `scrapeExamples`: every parse failure is an error, and the
        resource name is set after each snippet. */
    method ScrapeExamples(snippets: seq<Snippet>, convert: Block -> Option<string>) returns (err: Option<ScrapeError>)
      requires SnippetsWellFormed(snippets)
      modifies this`examples, this`name
      ensures var r := LegacySnippets(snippets, convert, LegacyExamplesState(titleName, old(name), old(examples), None));
              && err == r.err
              && (err.None? ==> name == r.name && examples == r.examples)
    {
      var resolved := titleName;
      ghost var st := LegacyExamplesState(resolved, name, examples, None);
      ghost var target := LegacySnippets(snippets, convert, st);
      for i := 0 to |snippets|
        invariant st.err.None? && LegacySnippets(snippets[i..], convert, st) == target
        invariant st.resolved == resolved && st.name == name && st.examples == examples
      {
        assert snippets[i..][0] == snippets[i] && snippets[i..][1..] == snippets[i + 1..];
        match snippets[i]
        case ParseFailure(text) =>
          return Some(ConfigParseFailure(text));
        case Parsed(file) =>
          resolved, err := ScrapeParsed(file, resolved, convert, st);
          if err.Some? {
            return;
          }
          st := LegacySnippetStep(snippets[i], convert, st);
      }
      assert snippets[|snippets|..] == [];
      return None;
    }

    /** The legacy `Scrape` on a page: the prelude first, stopping at its
        error; then the argument docs and the examples. */
    method Scrape(page: LegacyPage, convert: Block -> Option<string>) returns (err: Option<ScrapeError>)
      requires LegacyPageWellFormed(page) && LegacyNoPanic(page, PreludeState())
      modifies this`titleName, this`description, this`subCategory, this`argumentDocs, this`examples, this`name
      ensures PreludeState() == PreludeOutcome(page.prelude, old(PreludeState()))
      ensures var pe := LegacyPreludeError(PreludeState());
              pe.Some? ==> && err == pe && argumentDocs == old(argumentDocs)
                           && examples == old(examples) && name == old(name)
      ensures LegacyPreludeError(PreludeState()).None? ==>
                && FieldDocs(page.dom, page.anchors, {}, old(argumentDocs)) == Some(argumentDocs)
                && var r := LegacySnippets(page.snippets, convert,
                                           LegacyExamplesState(titleName, old(name), old(examples), None));
                   && err == r.err
                   && (err.None? ==> name == r.name && examples == r.examples)
    {
      err := ScrapePrelude(page.prelude);
      if err.Some? {
        return;
      }
      ghost var prelude := PreludeState();
      ScrapeFieldDocs(page.dom, page.anchors);
      ghost var docs := argumentDocs;
      err := ScrapeExamples(page.snippets, convert);
      assert PreludeState() == prelude && argumentDocs == docs;
    }
  }

  /** Legacy resource `r` holds what scraping `page` into a new resource
      stores: the prelude fields, the argument docs, and the name and the
      examples the snippets give. */
  predicate LegacyScrapedFrom(r: LegacyResource, page: LegacyPage, convert: Block -> Option<string>)
    requires LegacyPageWellFormed(page)
    reads r
  {
    var f := PreludeOutcome(page.prelude, PreludeFields("", "", ""));
    var s := LegacySnippets(page.snippets, convert, LegacyExamplesState(f.title, "", [], None));
    && r.PreludeState() == f
    && FieldDocs(page.dom, page.anchors, {}, map[]) == Some(r.argumentDocs)
    && r.name == s.name && r.examples == s.examples
  }

  /** What scraping one page into a new legacy resource ends in: the error
      that stopped it, or the name the resource is stored under. */
  function LegacyPageOutcome(page: LegacyPage, convert: Block -> Option<string>): Result<string, ScrapeError>
    requires LegacyPageWellFormed(page)
  {
    var f := PreludeOutcome(page.prelude, PreludeFields("", "", ""));
    match LegacyPreludeError(f)
    case Some(e) => Err(e)
    case None =>
      var r := LegacySnippets(page.snippets, convert, LegacyExamplesState(f.title, "", [], None));
      if r.err.Some? then Err(r.err.value) else Ok(r.name)
  }

  /** A legacy page that passes the prelude check but has no code snippet is
      stored under the empty name. */
  lemma LegacyNoSnippetsEmptyName(page: LegacyPage, convert: Block -> Option<string>)
    requires LegacyPageWellFormed(page) && page.snippets == []
    requires LegacyPreludeError(PreludeOutcome(page.prelude, PreludeFields("", "", ""))).None?
    ensures LegacyPageOutcome(page, convert) == Ok("")
  {
  }

  /** The outcome of every page, in walk order. */
  function LegacyPageOutcomes(pages: seq<LegacyPage>, convert: Block -> Option<string>)
    : (os: seq<Result<string, ScrapeError>>)
    requires forall k :: 0 <= k < |pages| ==> LegacyPageWellFormed(pages[k])
    ensures |os| == |pages|
  {
    if pages == [] then []
    else LegacyPageOutcomes(pages[..|pages| - 1], convert) + [LegacyPageOutcome(pages[|pages| - 1], convert)]
  }

  lemma {:induction false} LegacyPageOutcomeAt(pages: seq<LegacyPage>, convert: Block -> Option<string>, i: nat)
    requires forall k :: 0 <= k < |pages| ==> LegacyPageWellFormed(pages[k])
    requires i < |pages|
    ensures LegacyPageOutcomes(pages, convert)[i] == LegacyPageOutcome(pages[i], convert)
  {
    if i < |pages| - 1 {
      LegacyPageOutcomeAt(pages[..|pages| - 1], convert, i);
    }
  }

  /** The body of the walk callback of the legacy `ScrapeRepo` for one page. */
  method LegacyScrapePage(page: LegacyPage, convert: Block -> Option<string>) returns (r: LegacyResource, err: Option<ScrapeError>)
    requires LegacyPageWellFormed(page) && LegacyNoPanic(page, PreludeFields("", "", ""))
    ensures fresh(r)
    ensures var o := LegacyPageOutcome(page, convert);
            && (err.None? <==> o.Ok?)
            && (o.Err? ==> err == Some(o.error))
            && (o.Ok? ==> r.name == o.value && LegacyScrapedFrom(r, page, convert))
  {
    r := new LegacyResource();
    err := r.Scrape(page, convert);
  }

  /** The legacy provider metadata: its resources by name. */
  class LegacyProviderMetadata {
    const name: string
    var resources: map<string, LegacyResource>

    constructor (name: string)
      ensures this.name == name && resources == map[]
    {
      this.name := name;
      resources := map[];
    }

    /** Page `i` of the walk: scrapes it into a new resource and, when that
        succeeds, stores the resource under its name. */
    method ScrapeInto(pages: seq<LegacyPage>, i: nat, convert: Block -> Option<string>)
      returns (err: Option<ScrapeError>, ghost r: LegacyResource)
      requires forall k :: 0 <= k < |pages| ==> LegacyPageWellFormed(pages[k])
      requires i < |pages| && LegacyNoPanic(pages[i], PreludeFields("", "", ""))
      modifies this`resources
      ensures var o := LegacyPageOutcomes(pages, convert)[i];
              && (err.None? <==> o.Ok?)
              && (o.Err? ==> err == Some(o.error) && resources == old(resources))
              && (o.Ok? ==> && fresh(r) && r.name == o.value && LegacyScrapedFrom(r, pages[i], convert)
                            && resources == old(resources)[o.value := r])
    {
      LegacyPageOutcomeAt(pages, convert, i);
      var res;
      res, err := LegacyScrapePage(pages[i], convert);
      r := res;
      if err.Some? {
        return;
      }
      resources := resources[res.name := res];
    }

    /** The legacy `ScrapeRepo` over the markdown pages in walk order. */
    method ScrapeRepo(pages: seq<LegacyPage>, convert: Block -> Option<string>)
      returns (err: Option<ScrapeError>, ghost rs: seq<LegacyResource>)
      requires forall k :: 0 <= k < |pages| ==> LegacyPageWellFormed(pages[k])
      requires forall k :: 0 <= k < |pages| && RepoOutcome(LegacyPageOutcomes(pages, convert)[..k]).Ok? ==>
                 LegacyNoPanic(pages[k], PreludeFields("", "", ""))
      modifies this`resources
      ensures var o := RepoOutcome(LegacyPageOutcomes(pages, convert));
              && (err.None? <==> o.Ok?)
              && (o.Err? ==> err == Some(o.error))
              && (o.Ok? ==> && Stored(resources, old(resources), o.value)
                            && |rs| == |o.value| == |pages|
                            && (forall k :: 0 <= k < |pages| ==>
                                  fresh(rs[k]) && rs[k].name == o.value[k] && LegacyScrapedFrom(rs[k], pages[k], convert))
                            && LastWins(resources, o.value, rs))
    {
      // The walk needs only what `ScrapeInto` promises of each page.
      hide LegacyPageOutcome, LegacyPageWellFormed, LegacyNoPanic, LegacyScrapedFrom, Stored, LastWins;
      ghost var outcomes := LegacyPageOutcomes(pages, convert);
      ghost var names: seq<string> := [];
      rs := [];
      StoredNothing(resources);
      LastWinsNothing(resources);
      for i := 0 to |pages|
        invariant RepoOutcome(outcomes[..i]) == Ok(names)
        invariant |names| == |rs| == i
        invariant Stored(resources, old(resources), names)
        invariant forall k :: 0 <= k < i ==>
                    fresh(rs[k]) && rs[k].name == names[k] && LegacyScrapedFrom(rs[k], pages[k], convert)
        invariant LastWins(resources, names, rs)
      {
        assert outcomes[..i + 1][..i] == outcomes[..i];
        ghost var stored := resources;
        ghost var r: LegacyResource;
        err, r := ScrapeInto(pages, i, convert);
        if err.Some? {
          RepoStopsAt(outcomes, i);
          return;
        }
        StoredSnoc(stored, old(resources), names, r.name, r);
        LastWinsSnoc(stored, names, rs, r.name, r);
        names, rs := names + [r.name], rs + [r];
      }
      assert outcomes[..|pages|] == outcomes;
      return None, rs;
    }
  }
}
