# terraform-registry-scraper, modelled in Dafny

The scraper reads the markdown documentation pages of a Terraform provider
and builds one `Resource` record per page. Each record holds:

- the title, subcategory and description from the page's prelude (front matter);
- the argument documentation, taken from the text that follows each inline
  `code` anchor;
- the import statements;
- the example configurations. An example is the HCL block of the documented
  resource type, with its JSON manifest, the references its attributes make,
  and the other blocks of its snippet as dependencies.

`ProviderMetadata.ScrapeRepo` walks the pages and stores every resource under
the name its examples resolve.

This project models the current scraper (`pkg/meta/meta.go`) and, more
briefly, the older top-level variant (`main.go`). Modules:

| module | what it models |
|---|---|
| `Strings` | the Go `strings` functions the scraper relies on (`Split`, `Join`, `Contains`, `Replace`, `ReplaceAll`, `TrimSpace`) |
| `Hcl` | parsed HCL blocks, attributes and expressions; the `resource` block filter |
| `Matching` | `suffixMatch`, the relaxed name test |
| `Prelude` | the prelude scan shared by both versions |
| `References` | `findReferences` of both versions |
| `DocTree` | the argument documentation walk (`scrapeDocString`, `scrapeFieldDocs`) over an explicit node store |
| `Resolver` | `findExampleBlock` of the current version as a pure state machine (passes, promotion, fallback, dependency map) |
| `Meta` | the current `Resource` (a class whose methods update its fields), the shared dependency map (a class, since every example of one call aliases it), page and repository outcomes, and `ProviderMetadata` |
| `Legacy` | the `main.go` variant: its stricter prelude check, synthesised references, no dependency maps, no import statements, no default name |

How the external pieces become inputs:

- Markdown rendering, HTML parsing and the XPath queries are replaced by what
  the queries yield for a page (`Meta.Page`, `Legacy.LegacyPage`):
  - the prelude texts;
  - the DOM as a node store, with the argument anchors;
  - the import statement texts;
  - the code snippets, each already parsed (`Parsed(file)`) or failing to
    parse (`ParseFailure(text)`).
- HCL-to-JSON conversion, together with `json.Indent`, is the
  function-valued parameter `convert: Block -> Option<string>`.
- The directory walk is the sequence of markdown pages, in walk order.

`suffixMatch` (main.go:154-163) and `scrapeDocString`/`scrapeFieldDocs`
(main.go:239-286) of the legacy variant are the same code as the current
ones, so `Matching` and `DocTree` model both; the legacy prelude scan reuses
`Prelude` and differs only in its check.

Where the scraper's documented behaviour and its code differ, the model
follows the code:

- The `|-` marker is removed wherever it first occurs in the description, not
  only at its start (`Prelude.MarkerRemovedAnywhere`).
- Subcategory and description values are the text between the first and the
  second colon only, not everything after the first colon.
- The current scraper records any scope traversal as a reference, including a
  one-segment one, as the exact source text it spans. The legacy scraper
  synthesises `root.attr` from traversals of two or more steps, and stops at
  the first attribute that has none.
- The dependency map of one `findExampleBlock` call is a single map that
  every example of that call shares. An example therefore shows the
  dependencies stored after it too, not only those "accumulated so far"
  (`Meta.ViewsAppended`).
- The `processed` set of the documentation walk is shared by all anchors of a
  page, not kept per anchor (`DocTree.ProcessedAnchorAddsNothing`).
- A walk whose text is white space only is stored, as the empty
  documentation; only a walk with no text at all is dropped
  (`DocTree.BlankDocIsStored`).
- Every block of a snippet is converted before it is examined. A
  conversion failure of any block, matching or not, stops the scrape.
- The documented example promotes a `widget_instance` block for the resolved
  name `widget_instance_attachment`. The code does not: suffix matching drops
  at most one leading segment of the name, and the block's type must contain
  what is left. The reverse case does promote: a `widget_instance_attachment`
  block promotes for `widget_instance` (`Matching.NoPromotionOfShorterLabel`,
  `Matching.PromotionOfLongerLabel`).
- Two pages that resolve the same name: the later one replaces the earlier
  (`Meta.ProviderMetadata.ScrapeRepo`, `Meta.LastWins`).

## Model

| member | source | states |
|---|---|---|
| `Strings.Split` | pkg/meta/meta.go:250-253 | `strings.Split` on one character: never empty, and no part contains the separator |
| `Strings.SplitJoin` | pkg/meta/meta.go:250-253 | joining the parts of a split with the separator gives the text back; there is one part more than there are separators |
| `Strings.JoinSplit` | pkg/meta/meta.go:250-253 | splitting a join of separator-free parts gives the parts back |
| `Strings.LastPartAfterSep` | pkg/meta/meta.go:259 | the text after the last colon is the last field (`kv[len(kv)-1]`) |
| `Strings.IndexOf` | pkg/meta/meta.go:273 | the first occurrence of a pattern: it occurs there, nowhere earlier, and `None` exactly when the pattern does not occur |
| `Strings.RemoveFirst` | pkg/meta/meta.go:273 | `strings.Replace(s, pat, "", 1)`: unchanged without an occurrence; otherwise the text before the first occurrence followed by the text after it, one pattern length shorter |
| `Strings.RemoveAll` | pkg/meta/meta.go:259 | `strings.ReplaceAll(s, "\"", "")`: no quote is left, and a text without quotes is unchanged |
| `Strings.RemoveAllAppend` | pkg/meta/meta.go:259 | removal distributes over concatenation, removes `c` itself and keeps every other character, so all other characters stay, in order |
| `Strings.RemoveAllKeepsOut` | pkg/meta/meta.go:266 | removing quotes brings in no other character |
| `Strings.TrimSpaceSpec` | pkg/meta/meta.go:112 | `strings.TrimSpace` keeps a middle slice `s[i..j]`: all it cuts is white space, and the result neither starts nor ends with white space |
| `Strings.TrimSpaceIdempotent` | pkg/meta/meta.go:112 | trimming twice is trimming once |
| `Strings.TrimSpaceEmpty` | pkg/meta/meta.go:289-292 | a text trims to "" exactly when it is all white space |
| `Hcl.ResourceBlocks` | pkg/meta/meta.go:134-140 | the kept blocks are exactly the `resource` blocks, and no more than there were |
| `Hcl.ResourceBlocksAppend` | pkg/meta/meta.go:134-140 | the filter is stable: filtering a concatenation filters each part |
| `Matching.SuffixMatch` | pkg/meta/meta.go:179-188 | the loop returns true exactly when some admissible suffix of the name is contained in the label (`SuffixMatches`) |
| `Matching.SuffixMatchZero` | pkg/meta/meta.go:179-188 | with limit 0 the test is plain containment of the whole name |
| `Matching.SuffixMatchOne` | pkg/meta/meta.go:220 | with limit 1 (the resolver's): the label contains the name, or the name minus its first segment |
| `Matching.SuffixMatchMonotone` | pkg/meta/meta.go:181 | a larger limit, or -1, never turns a match into a mismatch |
| `Matching.DropFirstSegment` | pkg/meta/meta.go:180-182 | the suffix after dropping one segment of `p_q` is `q` |
| `Matching.NoPromotionOfShorterLabel` | pkg/meta/meta.go:220-222 | a page titled `widget_instance_attachment` does not promote a `widget_instance` block |
| `Matching.PromotionOfLongerLabel` | pkg/meta/meta.go:220-222 | a page titled `widget_instance` does promote a `widget_instance_attachment` block |
| `Prelude.Fields` | pkg/meta/meta.go:253 | a line always has at least one colon-separated field |
| `Prelude.LastKeyLine` | pkg/meta/meta.go:252-268 | the last line carrying a key: it carries the key, no later line does, and `None` exactly when no line does |
| `Prelude.LastField` | pkg/meta/meta.go:259 | the title field never contains a colon |
| `Prelude.ScanStep` | pkg/meta/meta.go:252-268 | one more line overwrites exactly the field whose key it carries, and moves the description index to itself |
| `Prelude.ScanPrelude` | pkg/meta/meta.go:252-268 | the loop leaves each field as set by the last line carrying its key, or as it was, and the index of the last description line, or -1 |
| `Prelude.ScrapePreludeText` | pkg/meta/meta.go:250-273 | the parsed fields equal `ParsePrelude`: the description has the lines after its line appended, space-joined, then the first `\|-` removed and the result trimmed |
| `Prelude.TitleValueShape` | pkg/meta/meta.go:259 | a title has no colon or quote and is trimmed |
| `Prelude.SubCategoryValueShape` | pkg/meta/meta.go:266 | a subcategory has no colon or quote and is trimmed |
| `Prelude.ParsedFieldsShape` | pkg/meta/meta.go:250-273 | a title or subcategory the prelude sets is clean (no colon, no quote, trimmed); the description is always trimmed |
| `Prelude.LaterLineWins` | pkg/meta/meta.go:252-268 | a later line with a key decides that field |
| `Prelude.TitleAfterLastColon` | pkg/meta/meta.go:259 | `page_title: "AWS: aws_vpc"` gives the text after the last colon |
| `Prelude.MarkerRemovedAnywhere` | pkg/meta/meta.go:273 | `a \|- b` finishes as `a  b`: the marker is removed in the middle too |
| `References.RecordedMapRecords` | pkg/meta/meta.go:171-174 | without a conflict, the map built attribute by attribute records exactly the references |
| `References.RecordsUnique` | pkg/meta/meta.go:171-174 | the recorded map is determined by the candidates |
| `References.DistinctNoConflict` | pkg/meta/meta.go:162-171 | attributes with distinct names never conflict |
| `References.RecordsExtend` | pkg/meta/meta.go:171-174 | recording one more agreeing candidate keeps the map exact and conflict-free |
| `References.ConflictWitness` | pkg/meta/meta.go:171-172 | a differing existing value is a conflict among the candidates |
| `References.ConflictGrows` | pkg/meta/meta.go:171-172 | a conflict among a prefix is a conflict of the whole |
| `References.FindReferences` | pkg/meta/meta.go:154-177 | an empty map when references are skipped or the block is not of the resource's type; otherwise an error exactly when two candidates conflict (with resource name and differing values), else the map recording every traversal's source slice; never an error for distinct names |
| `References.LegacyRef` | main.go:128-141 | a legacy reference exists exactly for a traversal of at least two steps that starts at a root and ends at an attribute, and it is the first step's name, a dot and the last step's name |
| `References.QualifyingPrefix` | main.go:143-145 | the longest prefix whose candidates all have a reference; the next one has none |
| `References.LegacyQualifying` | main.go:126-145 | the candidates the legacy loop reaches: all before the first attribute without a reference |
| `References.LegacyFindReferences` | main.go:121-152 | an empty map for a block of another type; otherwise an error exactly when the reached candidates conflict, else the map recording them; never an error for distinct names |
| `References.AddLegacyRef` | main.go:146-149 | one more reached candidate is recorded, or reported as a conflict of the reached candidates |
| `References.DistinctPrefixNoConflict` | main.go:126-149 | a prefix of attributes with distinct names never conflicts |
| `Resolver.RunPassFacts` | pkg/meta/meta.go:206-236 | a pass fails exactly when some block does not convert, naming such a block; it only appends examples; an exact pass keeps its name; a relaxed pass turns exact only by finding an example |
| `Resolver.RunPassFound` | pkg/meta/meta.go:208-231 | every example found is one of the blocks, with that block's manifest |
| `Resolver.Matches` | pkg/meta/meta.go:214-231 | reference definition of what an exact pass finds: exactly the blocks of the resolved type, with their manifests |
| `Resolver.DepsOfKeys` | pkg/meta/meta.go:209-224 | the dependency keys are the `type.name` keys of the blocks not of the resolved type, plus those already there |
| `Resolver.DepsOfLastWins` | pkg/meta/meta.go:216-224 | a dependency key holds the manifest of the last such block with that key |
| `Resolver.DepsOfKeep` | pkg/meta/meta.go:216-224 | a key no block overwrites keeps its value |
| `Resolver.ExactPass` | pkg/meta/meta.go:214-217 | an exact pass over convertible blocks keeps the name, appends `Matches` and stores every other block as a dependency |
| `Resolver.PromotionIndex` | pkg/meta/meta.go:220-222 | the first block whose type suffix-matches the name, and no earlier one does |
| `Resolver.RelaxedPass` | pkg/meta/meta.go:218-226 | a relaxed pass without a match stores everything as dependencies and stays relaxed; otherwise it promotes the first suffix-matching block and passes exactly over the rest under the new name |
| `Resolver.ExampleBlock` | pkg/meta/meta.go:206-241 | the found blocks come from the snippet; the resolution fails exactly when some block does not convert, naming such a block |
| `Resolver.ExampleBlockOutcome` | pkg/meta/meta.go:206-241 | an exact call resolves the matching blocks when there are any or the resource has examples; otherwise the relaxed fallback, as `RelaxedPass` states |
| `Resolver.ExpectedRefsSpec` | pkg/meta/meta.go:154-177 | for distinct attribute names, the references have exactly the attributes with a non-empty traversal slice as keys, each mapped to that slice |
| `DocTree.DocString` | pkg/meta/meta.go:296-330 | a walk that does not dereference nil only grows the processed set and marks its start node; a processed node yields nothing; a name once set is kept |
| `DocTree.Siblings` | pkg/meta/meta.go:312-328 | a sibling loop that does not dereference nil only grows the processed set and keeps a set name |
| `DocTree.DocStringTextStep` | pkg/meta/meta.go:306-313 | from an unprocessed node that is not an element: the name is its text if none was set, otherwise its text is written first; then the parent's later siblings follow; without a parent the walk dereferences nil |
| `DocTree.DocStringElementStep` | pkg/meta/meta.go:302-304 | an unprocessed element continues at its first child, and without one the walk dereferences nil |
| `DocTree.StepSkip` | pkg/meta/meta.go:314-316 | a processed sibling is skipped |
| `DocTree.StepText` | pkg/meta/meta.go:320-321 | a text sibling writes its text before the rest |
| `DocTree.StepEnter` | pkg/meta/meta.go:322-326 | an element sibling with a child writes the walk from that child before the rest; a nil dereference inside it ends the loop |
| `DocTree.StepOther` | pkg/meta/meta.go:319-325 | any other sibling, or an element without a child, is marked and contributes nothing |
| `DocTree.ScrapeDocString` | pkg/meta/meta.go:296-330 | on a walk that does not dereference nil, the recursive walk, threading the name and the processed set, returns exactly `DocString` |
| `DocTree.ScrapeSiblings` | pkg/meta/meta.go:312-329 | on a loop that does not dereference nil, the sibling loop returns exactly `Siblings` |
| `DocTree.EachNodeAtMostOnce` | pkg/meta/meta.go:296-330 | the text of a walk is the text of distinct non-element nodes it processed, in order, so each node contributes at most once and only nodes the walk newly processed contribute |
| `DocTree.FieldDocs` | pkg/meta/meta.go:283-294 | the argument docs only gain keys |
| `DocTree.FieldWalks` | pkg/meta/meta.go:286-288 | the walks of the anchors in order, each but the last without a nil dereference, ending early only at one |
| `DocTree.FieldDocsDefined` | pkg/meta/meta.go:283-294 | the docs are defined exactly when no walk of the anchors dereferences nil |
| `DocTree.FieldDocsLastWins` | pkg/meta/meta.go:283-294 | a key is stored exactly when it was there or some walk with text names it; it holds the trimmed text of the last such walk; any other key keeps its entry |
| `DocTree.FieldDocsTrimmed` | pkg/meta/meta.go:291-292 | every entry the walks store needs no further trimming |
| `DocTree.FirstTextIsName` | pkg/meta/meta.go:307-311 | the first text met is the attribute name and not part of its documentation |
| `DocTree.ProcessedAnchorAddsNothing` | pkg/meta/meta.go:284-299 | an anchor an earlier walk already reached adds no entry |
| `DocTree.BlankDocIsStored` | pkg/meta/meta.go:288-292 | a walk collecting only white space stores the empty documentation |
| `DocTree.SubnetPageWalk` | pkg/meta/meta.go:296-330 | on `<html><head></head><body><ul><li><code>subnet_id</code>The ID of the subnet.<em>(required)</em></li></ul></body></html>`, the walk from `code` gives name `subnet_id` and text `The ID of the subnet.(required)` |
| `DocTree.EmptyHeadIsNilDeref` | pkg/meta/meta.go:302-304 | on the same page, a walk that starts at the empty `head` dereferences nil |
| `DocTree.SubnetPageDoc` | pkg/meta/meta.go:283-294 | the same page gives `{"subnet_id": "The ID of the subnet.(required)"}`, with no delimiter added |
| `Meta.Dependencies.constructor` | pkg/meta/meta.go:207 | a new dependency map is empty |
| `Meta.Dependencies.Put` | pkg/meta/meta.go:216 | storing a dependency replaces the value under its key |
| `Meta.Views` | pkg/meta/meta.go:230-231 | each example reads its shared dependency map at the end |
| `Meta.AppendedSnoc` | pkg/meta/meta.go:229-231 | appending the example of one more found block keeps the examples in step with the found blocks |
| `Meta.ViewsAppended` | pkg/meta/meta.go:230-231 | examples that share one dependency map all read its final contents |
| `Meta.PreludeError` | pkg/meta/meta.go:276-279 | the check passes exactly when subcategory and title are non-empty; otherwise the error carries the three fields and the raw text |
| `Meta.MissingPreludeFails` | pkg/meta/meta.go:245-279 | a page without a prelude node fails the check on a new resource |
| `Meta.EmptyDescriptionAccepted` | pkg/meta/meta.go:276 | an empty description is accepted |
| `Meta.StoredImportsTrimmed` | pkg/meta/meta.go:335 | stored import statements neither start nor end with white space, and need no further trimming |
| `Meta.TrimToResources` | pkg/meta/meta.go:134-140 | the loop keeps exactly `ResourceBlocks` |
| `Meta.ParsedStep` | pkg/meta/meta.go:130-145 | a parsed snippet fails with the key of the block that does not convert, or appends the views of the blocks found and sets both names to the resolved one |
| `Meta.Resource.constructor` | pkg/meta/meta.go:382-384 | a new resource has the configuration and empty fields |
| `Meta.Resource.AddExampleManifest` | pkg/meta/meta.go:96-106 | appends one example: the block's name label, the manifest, its references and the shared dependency map |
| `Meta.Resource.ResolveBlock` | pkg/meta/meta.go:214-234 | one block of the loop advances the pass exactly as `Step`: dependency, example, or promotion then example |
| `Meta.Resource.FindExamplePass` | pkg/meta/meta.go:206-236 | a pass ends as `RunPass`: the resolved name and mode, a conversion error naming the failing block, a fresh dependency map holding the pass's dependencies, and one example per found block |
| `Meta.Resource.FindExampleBlock` | pkg/meta/meta.go:206-241 | the call ends as `ExampleBlock`, the fallback running only when the resource still has no example |
| `Meta.Resource.AddArgumentDoc` | pkg/meta/meta.go:108-113 | stores the trimmed doc under the field name, replacing an earlier one |
| `Meta.Resource.ScrapePrelude` | pkg/meta/meta.go:243-281 | the fields become `PreludeOutcome` of the first prelude node; the error is `PreludeError` of the result |
| `Meta.Resource.ScrapeFieldDocs` | pkg/meta/meta.go:283-294 | on anchors whose walks do not dereference nil, the argument docs become `FieldDocs` of the anchors, with one processed set for the page |
| `Meta.Resource.ScrapeImportStatements` | pkg/meta/meta.go:332-337 | appends every statement, trimmed |
| `Meta.Resource.ScrapeParsed` | pkg/meta/meta.go:130-145 | one parsed snippet ends as `SnippetStep` |
| `Meta.Resource.ScrapeExamples` | pkg/meta/meta.go:115-152 | the snippets end as `ScrapeSnippets`: the first error, or the resource name (the title when nothing resolved) and the examples |
| `Meta.Resource.Scrape` | pkg/meta/meta.go:342-366 | the prelude first; on its error nothing else changes and no walk is made; otherwise the argument docs, the trimmed imports and the examples, in that order |
| `Meta.NoSnippetsNamedByTitle` | pkg/meta/meta.go:148-150 | a page that passes the prelude check and has no snippet is named by its title |
| `Meta.NoPreludeNoResource` | pkg/meta/meta.go:245-279 | a page without a prelude fails with an empty-field prelude error |
| `Meta.HeadAnchorBehindFailedPrelude` | pkg/meta/meta.go:358-362 | a page is walked only after its prelude passes: a page without a prelude whose anchor would dereference nil is accepted and reports the prelude error |
| `Meta.RepoSucceeds` | pkg/meta/meta.go:374-392 | the repository scrape succeeds exactly when every page does, and then names the resources page by page |
| `Meta.RepoFirstError` | pkg/meta/meta.go:385-387 | it reports the error of the first page that fails |
| `Meta.RepoStopsAt` | pkg/meta/meta.go:385-387 | a failing page after a successful prefix decides the outcome |
| `Meta.ScrapePage` | pkg/meta/meta.go:382-388 | a new resource scraped from the page: its error or its name is `PageOutcome`; on success it holds the page's prelude fields, argument docs, trimmed imports and name (`ScrapedFrom`) and the example views the snippets give |
| `Meta.StoredSnoc` | pkg/meta/meta.go:389 | storing one more resource keeps every other entry and adds its name |
| `Meta.LastWinsSnoc` | pkg/meta/meta.go:389 | storing one more resource makes it the entry of its name, and every name stored earlier under another name keeps the resource of its last page |
| `Meta.ProviderMetadata.constructor` | pkg/meta/meta.go:55-64 | a new provider has its name and no resources |
| `Meta.ProviderMetadata.ScrapeInto` | pkg/meta/meta.go:382-390 | one page: on error the resources are unchanged; on success a fresh resource scraped from that page is stored under its name |
| `Meta.ProviderMetadata.ScrapeRepo` | pkg/meta/meta.go:374-392 | the walk ends as `RepoOutcome`: the first page error, with no page after it read; or one fresh resource per page, scraped from that page, every name holding the resource of the last page that resolves it, and all other entries kept |
| `Legacy.LegacyRefsSpec` | main.go:121-152 | the legacy references are keyed by exactly the reached attributes, each with its `root.attr` |
| `Legacy.RecordsLegacyRefs` | main.go:121-152 | the map the loop records is `LegacyRefs` |
| `Legacy.LegacyRunFacts` | main.go:166-193 | a legacy pass fails only at a block that does not convert; it only appends; an exact pass keeps its name; a relaxed pass turns exact only with an example |
| `Legacy.MatchingBlocks` | main.go:167 | the blocks of the resolved type |
| `Legacy.LegacyExactPass` | main.go:166-193 | an exact legacy pass fails exactly when a block of the resolved type does not convert, and otherwise finds all of them in order; blocks of other types do not matter |
| `Legacy.LegacyExactPassFails` | main.go:180-186 | a first block of the resolved type that does not convert fails the pass |
| `Legacy.LegacyExampleBlockExact` | main.go:165-199 | an exact call is the exact pass when the snippet has matching blocks or the resource has examples; otherwise the relaxed pass |
| `Legacy.LegacyRelaxedPass` | main.go:166-193 | a relaxed pass over blocks none of which has the resolved type: without a suffix match it takes nothing and keeps its name; otherwise the first suffix-matching block is promoted, only blocks of its type are then converted and taken, and the pass fails exactly when one of those does not convert |
| `Legacy.LegacyPromotion` | main.go:167-177 | a relaxed pass whose first block suffix-matches promotes that block's type and goes on as an exact pass |
| `Legacy.LegacyExamplesSnoc` | main.go:76-79 | one more found block appends one example |
| `Legacy.LegacyPreludeError` | main.go:232-235 | the legacy check passes exactly when description, subcategory and title are all non-empty |
| `Legacy.LegacyPreludeStricter` | main.go:232-235 | it rejects everything the current check rejects, and in addition exactly the preludes with an empty description |
| `Legacy.LegacyParseFailureFatal` | main.go:96-98 | a snippet that does not parse always stops the legacy scrape |
| `Legacy.LegacyNoSnippetsKeepName` | main.go:90-118 | without snippets the legacy name is not defaulted to the title |
| `Legacy.LegacyResource.constructor` | main.go:324 | a new legacy resource has empty fields |
| `Legacy.LegacyResource.AddExampleManifest` | main.go:65-81 | appends the manifest with the block's legacy references |
| `Legacy.LegacyResource.FindExamplePass` | main.go:166-193 | a legacy pass ends as `LegacyRun`: name, mode, conversion error and examples appended |
| `Legacy.LegacyResource.TakeBlock` | main.go:167-192 | one block advances the pass exactly as `LegacyStep` |
| `Legacy.LegacyResource.FindExampleBlock` | main.go:165-199 | the call ends as `LegacyExampleBlock`, with the relaxed fallback only when the resource still has no example |
| `Legacy.LegacyResource.AddArgumentDoc` | main.go:83-88 | stores the trimmed doc, replacing an earlier one |
| `Legacy.LegacyResource.ScrapePrelude` | main.go:201-237 | the fields become `PreludeOutcome`; the error is the stricter `LegacyPreludeError` |
| `Legacy.LegacyResource.ScrapeFieldDocs` | main.go:239-250 | on anchors whose walks do not dereference nil, the argument docs become `FieldDocs` of the anchors |
| `Legacy.LegacyResource.ScrapeParsed` | main.go:94-115 | one parsed snippet ends as `LegacySnippetStep` |
| `Legacy.LegacyResource.ScrapeExamples` | main.go:90-119 | the snippets end as `LegacySnippets`: the first error, or the name and examples |
| `Legacy.LegacyResource.Scrape` | main.go:291-314 | the prelude first; on its error nothing else changes and no walk is made; otherwise the argument docs and the examples |
| `Legacy.LegacyNoSnippetsEmptyName` | main.go:90-119 | a legacy page that passes the prelude check but has no snippet is stored under the empty name |
| `Legacy.LegacyScrapePage` | main.go:324-327 | a new legacy resource scraped from the page: its error or its name is `LegacyPageOutcome`; on success it holds the page's prelude fields, argument docs, name and examples (`LegacyScrapedFrom`) |
| `Legacy.LegacyProviderMetadata.constructor` | main.go:41-49 | a new legacy provider has its name and no resources |
| `Legacy.LegacyProviderMetadata.ScrapeInto` | main.go:324-330 | one page: on error the resources are unchanged; on success a fresh resource scraped from that page is stored under its name |
| `Legacy.LegacyProviderMetadata.ScrapeRepo` | main.go:316-332 | the walk ends as `RepoOutcome` of the legacy page outcomes: the first page error, with no page after it read; on success one fresh resource per page, scraped from that page, every name holding the resource of the last page that resolves it |

## Left out

- Markdown rendering (goldmark), HTML parsing and the XPath queries: a page is what the queries yield.
- HCL parsing: a snippet arrives parsed or as a parse failure. The diagnostics text is not modelled.
- HCL-to-JSON conversion and `json.Indent`: a function-valued parameter. In the legacy version a failure of either fails the block, and the two error messages are one error here.
- File reading, the directory walk, `NewProviderMetadataFromFile` and `Store` (YAML): I/O. The walk is a sequence of pages in walk order. The file extension filter and read, render and parse errors are not modelled.
- The printing of a skipped parse error (`fmt.Printf`), and `main()` of both programs.
- `cmd/scraper/main.go` is not part of this model.
- The "not an HCL Body" error: the native parser always yields a syntax body, so the model has none.
- Error values are a datatype that carries the identifying context (fields, snippet text, block key, attribute and references). The Go message texts and the wrapping are not modelled.
- Panics. A documentation walk that dereferences nil is the outcome `NilDeref`: an entered element without a child, or a text anchor without a parent. The Go program crashes there. The scrape of a page whose prelude passes therefore requires that none of its walks does (`Meta.NoPanic`, `Legacy.LegacyNoPanic`). A page whose prelude fails, or a page after the first failing one, is not walked, and nothing is required of its walks. The DOM's links are consistent, as those of a parsed HTML tree are. Blocks always have two labels. A snippet's traversal ranges lie inside its text.
- Meta.ProviderMetadata.ScrapeRepo: states each stored resource's prelude fields, argument docs, import statements and name, but not its example views. `Meta.ScrapePage` states those views page by page; they read dependency maps that the examples of one snippet share.
- Attribute names of a block are distinct, as HCL's attribute map guarantees. The conflicting-reference error is therefore stated, but no parsed block reaches it. The index-out-of-range panic on that path of the current version is not modelled.
- Go map iteration order: the attributes are a sequence, standing for one iteration order. This matters only for the legacy `findReferences`, which stops at the first attribute without a reference in map order.
- Text is a sequence of code points: the byte slicing of `file.Bytes`, and invalid UTF-8, are modelled on characters. `Strings.IsSpace` is Go's `unicode.IsSpace` on code points.
- Nil versus empty maps and slices (`omitempty` in the YAML output) are not distinguished.
- The state of a resource after an error is stated for the prelude error only. After an example error the resource is dropped, as `ScrapeRepo` does.
