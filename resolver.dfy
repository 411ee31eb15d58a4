/** The block resolver of the current scraper (`findExampleBlock`) as a pure
    state machine over the `resource` blocks of one example snippet, with the
    reference definitions it is proved against. */
module Resolver {
  import opened Wrappers
  import opened Hcl
  import opened Matching
  import opened References

  /** A block accepted as an example, with its converted JSON manifest. */
  datatype Found = Found(block: Block, manifest: string)

  /** What one pass threads through the blocks: the resolved name, whether it
      is in exact mode, the examples found so far, the dependency map shared by
      all of them, and the block whose conversion failed, if any. */
  datatype PassState = PassState(name: string, exact: bool, found: seq<Found>,
                                 deps: map<string, string>, failed: Option<Block>)

  function Start(name: string, exact: bool): PassState
  {
    PassState(name, exact, [], map[], None)
  }

  /** One already converted block: a block of the resolved type is an
      example; in relaxed mode a block whose type suffix-matches the resolved
      name is promoted to be the resolved name and switches to exact mode;
      every other block is a dependency stored under `type.name`. */
  function Step(st: PassState, b: Block, m: string): PassState
  {
    if b.typeLabel == st.name then
      st.(found := st.found + [Found(b, m)])
    else if !st.exact && SuffixMatches(b.typeLabel, st.name, 1) then
      st.(name := b.typeLabel, exact := true, found := st.found + [Found(b, m)])
    else
      st.(deps := st.deps[DepKey(b) := m])
  }

  /** Every block converts to JSON. */
  predicate AllConvert(blocks: seq<Block>, convert: Block -> Option<string>)
  {
    forall k :: 0 <= k < |blocks| ==> convert(blocks[k]).Some?
  }

  lemma AllConvertTail(blocks: seq<Block>, convert: Block -> Option<string>)
    requires blocks != [] && AllConvert(blocks, convert)
    ensures AllConvert(blocks[1..], convert)
  {
    forall k | 0 <= k < |blocks| - 1 ensures convert(blocks[1..][k]).Some? {
      assert blocks[1..][k] == blocks[k + 1];
    }
  }

  /** One pass over the blocks, stopping at the first block that does not
      convert. */
  function RunPass(blocks: seq<Block>, convert: Block -> Option<string>, st: PassState): PassState
    requires st.failed.None?
    decreases |blocks|
  {
    if blocks == [] then st
    else match convert(blocks[0])
      case None => st.(failed := Some(blocks[0]))
      case Some(m) => RunPass(blocks[1..], convert, Step(st, blocks[0], m))
  }

  /** A pass fails exactly when some block does not convert, and then names
      such a block; it only appends examples; a pass that starts exact keeps
      its name and stays exact; a relaxed pass turns exact only by finding an
      example, which is why the fallback of `findExampleBlock` recurses at
      most once. */
  lemma {:induction false} RunPassFacts(blocks: seq<Block>, convert: Block -> Option<string>, st: PassState, r: PassState)
    requires st.failed.None? && r == RunPass(blocks, convert, st)
    ensures r.failed.None? <==> AllConvert(blocks, convert)
    ensures r.failed.Some? ==> r.failed.value in blocks && convert(r.failed.value).None?
    ensures |st.found| <= |r.found| && r.found[..|st.found|] == st.found
    ensures st.exact ==> r.name == st.name && r.exact
    ensures !st.exact && r.exact ==> |st.found| < |r.found|
    decreases |blocks|
  {
    if blocks != [] && convert(blocks[0]).Some? {
      var st' := Step(st, blocks[0], convert(blocks[0]).value);
      RunPassFacts(blocks[1..], convert, st', r);
      if r.failed.None? {
        forall k | 0 <= k < |blocks| ensures convert(blocks[k]).Some? {
          if k > 0 { assert blocks[k] == blocks[1..][k - 1]; }
        }
      }
      if AllConvert(blocks, convert) {
        AllConvertTail(blocks, convert);
      }
      if r.failed.Some? {
        assert r.failed.value in blocks[1..];
      }
      assert r.found[..|st'.found|][..|st.found|] == r.found[..|st.found|];
    }
  }

  /** Every example a pass finds is one of its blocks, with that block's
      manifest. */
  lemma {:induction false} RunPassFound(blocks: seq<Block>, convert: Block -> Option<string>, st: PassState, r: PassState)
    requires st.failed.None? && r == RunPass(blocks, convert, st)
    ensures forall k :: |st.found| <= k < |r.found| ==>
              r.found[k].block in blocks && convert(r.found[k].block) == Some(r.found[k].manifest)
    decreases |blocks|
  {
    if blocks != [] && convert(blocks[0]).Some? {
      var m := convert(blocks[0]).value;
      var st' := Step(st, blocks[0], m);
      RunPassFound(blocks[1..], convert, st', r);
      RunPassFacts(blocks[1..], convert, st', r);
      forall k | |st.found| <= k < |r.found|
        ensures r.found[k].block in blocks && convert(r.found[k].block) == Some(r.found[k].manifest)
      {
        if k >= |st'.found| {
          var j :| 0 <= j < |blocks[1..]| && blocks[1..][j] == r.found[k].block;
          assert blocks[j + 1] == r.found[k].block;
        } else {
          assert k == |st.found| && st'.found[k] == Found(blocks[0], m);
          assert r.found[..|st'.found|] == st'.found;
          assert r.found[k] == r.found[..|st'.found|][k];
        }
      }
    }
  }

  /** A pass over `blocks[i..]` is the step for `blocks[i]` followed by a pass
      over the rest, or stops at `blocks[i]` when it does not convert. */
  lemma RunPassUnfold(blocks: seq<Block>, i: nat, convert: Block -> Option<string>, st: PassState)
    requires i < |blocks| && st.failed.None?
    ensures convert(blocks[i]).None? ==> RunPass(blocks[i..], convert, st) == st.(failed := Some(blocks[i]))
    ensures convert(blocks[i]).Some? ==>
              RunPass(blocks[i..], convert, st) == RunPass(blocks[i + 1..], convert, Step(st, blocks[i], convert(blocks[i]).value))
  {
    assert blocks[i..][0] == blocks[i] && blocks[i..][1..] == blocks[i + 1..];
  }

  /** Reference definition: the examples an exact pass finds, in block order. */
  function Matches(blocks: seq<Block>, name: string, convert: Block -> Option<string>): (fs: seq<Found>)
    requires AllConvert(blocks, convert)
    ensures forall k :: 0 <= k < |fs| ==>
              fs[k].block in blocks && fs[k].block.typeLabel == name && fs[k].manifest == convert(fs[k].block).value
    ensures forall k :: 0 <= k < |blocks| && blocks[k].typeLabel == name ==>
              Found(blocks[k], convert(blocks[k]).value) in fs
    ensures |fs| <= |blocks|
    decreases |blocks|
  {
    if blocks == [] then []
    else
      AllConvertTail(blocks, convert);
      var rest := Matches(blocks[1..], name, convert);
      assert forall k :: 1 <= k < |blocks| ==> blocks[k] == blocks[1..][k - 1];
      if blocks[0].typeLabel == name then [Found(blocks[0], convert(blocks[0]).value)] + rest else rest
  }

  /** Reference definition: the dependency map after the blocks not of type
      `name` are stored into `deps`, a later block overwriting an earlier one. */
  function DepsOf(blocks: seq<Block>, name: string, convert: Block -> Option<string>, deps: map<string, string>): map<string, string>
    requires AllConvert(blocks, convert)
    decreases |blocks|
  {
    if blocks == [] then deps
    else
      AllConvertTail(blocks, convert);
      var b := blocks[0];
      DepsOf(blocks[1..], name, convert, if b.typeLabel == name then deps else deps[DepKey(b) := convert(b).value])
  }

  /** The keys of the dependency map are exactly the keys already there and
      the `type.name` keys of the blocks not of type `name`. */
  lemma {:induction false} DepsOfKeys(blocks: seq<Block>, name: string, convert: Block -> Option<string>, deps: map<string, string>)
    requires AllConvert(blocks, convert)
    ensures forall x :: x in DepsOf(blocks, name, convert, deps) <==>
              x in deps || exists k :: 0 <= k < |blocks| && blocks[k].typeLabel != name && DepKey(blocks[k]) == x
    decreases |blocks|
  {
    if blocks != [] {
      AllConvertTail(blocks, convert);
      var b := blocks[0];
      var tail := blocks[1..];
      var deps' := if b.typeLabel == name then deps else deps[DepKey(b) := convert(b).value];
      DepsOfKeys(tail, name, convert, deps');
      var r := DepsOf(blocks, name, convert, deps);
      assert r == DepsOf(tail, name, convert, deps');
      forall x ensures x in r <==> x in deps || exists k :: 0 <= k < |blocks| && blocks[k].typeLabel != name && DepKey(blocks[k]) == x {
        if x in r && x !in deps {
          if x in deps' {
            assert blocks[0].typeLabel != name && DepKey(blocks[0]) == x;
          } else {
            var j :| 0 <= j < |tail| && tail[j].typeLabel != name && DepKey(tail[j]) == x;
            assert blocks[j + 1] == tail[j];
          }
        }
        if exists k :: 0 <= k < |blocks| && blocks[k].typeLabel != name && DepKey(blocks[k]) == x {
          var k :| 0 <= k < |blocks| && blocks[k].typeLabel != name && DepKey(blocks[k]) == x;
          if k > 0 {
            assert tail[k - 1] == blocks[k];
          }
        }
      }
    }
  }

  /** The value stored under a dependency key is the manifest of the last
      block not of type `name` that has this key. */
  lemma {:induction false} DepsOfLastWins(blocks: seq<Block>, name: string, convert: Block -> Option<string>,
                                          deps: map<string, string>, k: nat)
    requires AllConvert(blocks, convert)
    requires k < |blocks| && blocks[k].typeLabel != name
    requires forall j :: k < j < |blocks| && blocks[j].typeLabel != name ==> DepKey(blocks[j]) != DepKey(blocks[k])
    ensures DepKey(blocks[k]) in DepsOf(blocks, name, convert, deps)
    ensures DepsOf(blocks, name, convert, deps)[DepKey(blocks[k])] == convert(blocks[k]).value
    decreases |blocks|
  {
    AllConvertTail(blocks, convert);
    var b := blocks[0];
    var tail := blocks[1..];
    var deps' := if b.typeLabel == name then deps else deps[DepKey(b) := convert(b).value];
    if k == 0 {
      DepsOfKeep(tail, name, convert, deps', DepKey(b));
    } else {
      assert tail[k - 1] == blocks[k];
      forall j | k - 1 < j < |tail| && tail[j].typeLabel != name
        ensures DepKey(tail[j]) != DepKey(tail[k - 1])
      {
        assert tail[j] == blocks[j + 1];
      }
      DepsOfLastWins(tail, name, convert, deps', k - 1);
    }
  }

  /** A key no block overwrites keeps its value. */
  lemma {:induction false} DepsOfKeep(blocks: seq<Block>, name: string, convert: Block -> Option<string>,
                                      deps: map<string, string>, key: string)
    requires AllConvert(blocks, convert) && key in deps
    requires forall j :: 0 <= j < |blocks| && blocks[j].typeLabel != name ==> DepKey(blocks[j]) != key
    ensures key in DepsOf(blocks, name, convert, deps) && DepsOf(blocks, name, convert, deps)[key] == deps[key]
    decreases |blocks|
  {
    if blocks != [] {
      AllConvertTail(blocks, convert);
      var b := blocks[0];
      var tail := blocks[1..];
      forall j | 0 <= j < |tail| && tail[j].typeLabel != name ensures DepKey(tail[j]) != key {
        assert tail[j] == blocks[j + 1];
      }
      DepsOfKeep(tail, name, convert, if b.typeLabel == name then deps else deps[DepKey(b) := convert(b).value], key);
    }
  }

  /** An exact pass over convertible blocks keeps the name, appends exactly the
      matching blocks in order, and stores every other block as a dependency. */
  lemma {:induction false} ExactPass(blocks: seq<Block>, convert: Block -> Option<string>, name: string,
                                     found: seq<Found>, deps: map<string, string>)
    requires AllConvert(blocks, convert)
    ensures RunPass(blocks, convert, PassState(name, true, found, deps, None)) ==
            PassState(name, true, found + Matches(blocks, name, convert), DepsOf(blocks, name, convert, deps), None)
    decreases |blocks|
  {
    if blocks != [] {
      AllConvertTail(blocks, convert);
      var b := blocks[0];
      var m := convert(b).value;
      if b.typeLabel == name {
        ExactPass(blocks[1..], convert, name, found + [Found(b, m)], deps);
        assert found + [Found(b, m)] + Matches(blocks[1..], name, convert)
            == found + ([Found(b, m)] + Matches(blocks[1..], name, convert));
      } else {
        ExactPass(blocks[1..], convert, name, found, deps[DepKey(b) := m]);
      }
    }
  }

  /** The first block whose type suffix-matches `name` (up to one dropped
      segment): the block a relaxed pass promotes. */
  function PromotionIndex(blocks: seq<Block>, name: string): (p: Option<nat>)
    ensures p.Some? ==> p.value < |blocks| && SuffixMatches(blocks[p.value].typeLabel, name, 1)
    ensures forall k :: 0 <= k < |blocks| && (p.None? || k < p.value) ==> !SuffixMatches(blocks[k].typeLabel, name, 1)
    decreases |blocks|
  {
    if blocks == [] then None
    else if SuffixMatches(blocks[0].typeLabel, name, 1) then Some(0)
    else
      var p := PromotionIndex(blocks[1..], name);
      assert forall k :: 1 <= k < |blocks| ==> blocks[k] == blocks[1..][k - 1];
      if p.Some? then Some(p.value + 1) else None
  }

  /** A relaxed pass over convertible blocks none of which has the resolved
      type: without a suffix match every block is a dependency and the mode
      stays relaxed; otherwise the first suffix-matching block is promoted,
      the blocks before it are dependencies, and the rest is an exact pass
      under the promoted name. */
  lemma {:induction false} RelaxedPass(blocks: seq<Block>, convert: Block -> Option<string>, name: string,
                                       found: seq<Found>, deps: map<string, string>)
    requires AllConvert(blocks, convert)
    requires forall k :: 0 <= k < |blocks| ==> blocks[k].typeLabel != name
    ensures var r := RunPass(blocks, convert, PassState(name, false, found, deps, None));
            match PromotionIndex(blocks, name)
            case None => r == PassState(name, false, found, DepsOf(blocks, name, convert, deps), None)
            case Some(p) =>
              var t := blocks[p].typeLabel;
              r == PassState(t, true, found + [Found(blocks[p], convert(blocks[p]).value)] + Matches(blocks[p + 1..], t, convert),
                             DepsOf(blocks[p + 1..], t, convert, DepsOf(blocks[..p], name, convert, deps)), None)
    decreases |blocks|
  {
    if blocks != [] {
      AllConvertTail(blocks, convert);
      var b := blocks[0];
      var m := convert(b).value;
      var tail := blocks[1..];
      if SuffixMatches(b.typeLabel, name, 1) {
        assert blocks[..0] == [];
        assert blocks[1..] == tail;
        ExactPass(tail, convert, b.typeLabel, found + [Found(b, m)], deps);
      } else {
        forall k | 0 <= k < |tail| ensures tail[k].typeLabel != name {
          assert tail[k] == blocks[k + 1];
        }
        RelaxedPass(tail, convert, name, found, deps[DepKey(b) := m]);
        match PromotionIndex(tail, name)
        case None =>
        case Some(q) =>
          assert blocks[q + 1] == tail[q];
          assert blocks[q + 2..] == tail[q + 1..];
          assert blocks[..q + 1][1..] == tail[..q];
      }
    }
  }

  /** `findExampleBlock`: one pass, followed by the relaxed fallback only
      when the pass succeeded, the resource still has no example at all, and
      the pass ended in exact mode (a relaxed pass ends exact only with an
      example, so the fallback itself never falls back). */
  function ExampleBlock(blocks: seq<Block>, convert: Block -> Option<string>, name: string,
                        exact: bool, hadExamples: bool): (r: PassState)
    ensures forall k :: 0 <= k < |r.found| ==> r.found[k].block in blocks
    ensures r.failed.None? <==> AllConvert(blocks, convert)
    ensures r.failed.Some? ==> r.failed.value in blocks && convert(r.failed.value).None?
  {
    var first := RunPass(blocks, convert, Start(name, exact));
    RunPassFound(blocks, convert, Start(name, exact), first);
    RunPassFacts(blocks, convert, Start(name, exact), first);
    var second := RunPass(blocks, convert, Start(first.name, false));
    RunPassFound(blocks, convert, Start(first.name, false), second);
    RunPassFacts(blocks, convert, Start(first.name, false), second);
    if first.failed.None? && !hadExamples && |first.found| == 0 && first.exact
    then second
    else first
  }

  /** What an exact-mode call of `findExampleBlock` resolves, for blocks that
      all convert: the matching blocks when there are any; otherwise nothing
      when the resource already has examples; otherwise the relaxed fallback. */
  lemma ExampleBlockOutcome(blocks: seq<Block>, convert: Block -> Option<string>, name: string, hadExamples: bool)
    requires AllConvert(blocks, convert)
    ensures var r := ExampleBlock(blocks, convert, name, true, hadExamples);
            var exact := PassState(name, true, Matches(blocks, name, convert), DepsOf(blocks, name, convert, map[]), None);
            if Matches(blocks, name, convert) != [] || hadExamples then r == exact
            else match PromotionIndex(blocks, name)
              case None => r == PassState(name, false, [], DepsOf(blocks, name, convert, map[]), None)
              case Some(p) =>
                var t := blocks[p].typeLabel;
                  r == PassState(t, true, [Found(blocks[p], convert(blocks[p]).value)] + Matches(blocks[p + 1..], t, convert),
                               DepsOf(blocks[p + 1..], t, convert, DepsOf(blocks[..p], name, convert, map[])), None)
  {
    ExactPass(blocks, convert, name, [], map[]);
    assert [] + Matches(blocks, name, convert) == Matches(blocks, name, convert);
    if Matches(blocks, name, convert) == [] && !hadExamples {
      assert forall k :: 0 <= k < |blocks| ==> blocks[k].typeLabel != name;
      RelaxedPass(blocks, convert, name, [], map[]);
      match PromotionIndex(blocks, name)
      case None =>
      case Some(p) =>
        assert [] + [Found(blocks[p], convert(blocks[p]).value)] == [Found(blocks[p], convert(blocks[p]).value)];
    }
  }

  /** The references recorded for an example block of the resolved type: none
      when references are switched off, otherwise the source slice of every
      attribute whose expression is a scope traversal. */
  function ExpectedRefs(skipRefs: bool, bytes: string, b: Block): map<string, string>
    requires RangesWithin(bytes, b.attrs)
  {
    if skipRefs then map[] else RecordedMap(SliceCandidates(bytes, b.attrs))
  }

  /** For a block with distinct attribute names, the recorded references have
      exactly the attributes whose expression spans a non-empty scope
      traversal as keys, each mapped to the text it spans. */
  lemma ExpectedRefsSpec(bytes: string, b: Block)
    requires WellFormedBlock(bytes, b)
    ensures var refs := ExpectedRefs(false, bytes, b);
            forall k :: 0 <= k < |b.attrs| ==>
              (b.attrs[k].name in refs <==> SliceRef(bytes, b.attrs[k].expr) != "")
              && (b.attrs[k].name in refs ==> refs[b.attrs[k].name] == SliceRef(bytes, b.attrs[k].expr))
  {
    var cs := SliceCandidates(bytes, b.attrs);
    DistinctNoConflict(cs);
    RecordedMapRecords(cs);
    forall k | 0 <= k < |b.attrs|
      ensures var refs := RecordedMap(cs);
              (b.attrs[k].name in refs <==> SliceRef(bytes, b.attrs[k].expr) != "")
              && (b.attrs[k].name in refs ==> refs[b.attrs[k].name] == SliceRef(bytes, b.attrs[k].expr))
    {
      RecordedAttr(cs, RecordedMap(cs), k);
    }
  }

  /** What a record of candidates with distinct names says of candidate `k`. */
  lemma RecordedAttr(cs: seq<Candidate>, refs: map<string, string>, k: nat)
    requires Records(cs, refs) && k < |cs|
    requires forall i, j :: 0 <= i < j < |cs| ==> cs[i].0 != cs[j].0
    ensures cs[k].0 in refs <==> cs[k].1 != ""
    ensures cs[k].0 in refs ==> refs[cs[k].0] == cs[k].1
  {
    if cs[k].0 in refs {
      assert cs[k].0 in RefNames(cs);
      var i :| 0 <= i < |cs| && cs[i].1 != "" && cs[i].0 == cs[k].0;
      assert i == k;
    }
  }
}
