/** Extraction of the attribute references of a matched example block:
    attribute name to the text of the traversal it is assigned. */
module References {
  import opened Wrappers
  import opened Hcl
  import opened Errors

  /** A candidate reference: attribute name and reference text ("" = none). */
  type Candidate = (string, string)

  /** Two candidates of the same attribute name disagree. */
  predicate Conflicting(cs: seq<Candidate>)
  {
    exists i, j :: 0 <= i < j < |cs| && cs[i].0 == cs[j].0 && cs[i].1 != "" && cs[j].1 != "" && cs[i].1 != cs[j].1
  }

  /** The attribute names that have a reference. */
  function RefNames(cs: seq<Candidate>): set<string>
  {
    set i | 0 <= i < |cs| && cs[i].1 != "" :: cs[i].0
  }

  /** `refs` records exactly the candidates that have a reference. */
  predicate Records(cs: seq<Candidate>, refs: map<string, string>)
  {
    && refs.Keys == RefNames(cs)
    && forall i :: 0 <= i < |cs| && cs[i].1 != "" ==> refs[cs[i].0] == cs[i].1
  }

  /** The map that records the candidates, later candidates last. */
  function RecordedMap(cs: seq<Candidate>): map<string, string>
  {
    if cs == [] then map[]
    else
      var c := cs[|cs| - 1];
      var m := RecordedMap(cs[..|cs| - 1]);
      if c.1 == "" then m else m[c.0 := c.1]
  }

  /** Without a conflict, the recorded map holds exactly the references. */
  lemma {:induction false} RecordedMapRecords(cs: seq<Candidate>)
    requires !Conflicting(cs)
    ensures Records(cs, RecordedMap(cs))
  {
    if cs != [] {
      var pre := cs[..|cs| - 1];
      var c := cs[|cs| - 1];
      assert cs == pre + [c];
      if Conflicting(pre) { ConflictGrows(cs, |pre|); }
      RecordedMapRecords(pre);
      var m := RecordedMap(pre);
      if c.1 != "" && c.0 in m {
        assert c.0 in RefNames(pre);
        var i :| 0 <= i < |pre| && pre[i].1 != "" && pre[i].0 == c.0;
        assert cs[i] == pre[i];
      }
      RecordsExtend(pre, c, m);
    }
  }

  /** A map that records the candidates is determined by them. */
  lemma RecordsUnique(cs: seq<Candidate>, m1: map<string, string>, m2: map<string, string>)
    requires Records(cs, m1) && Records(cs, m2)
    ensures m1 == m2
  {
    forall k | k in m1 ensures m1[k] == m2[k] {
      var i :| 0 <= i < |cs| && cs[i].1 != "" && cs[i].0 == k;
    }
  }

  /** The reference text the current scraper records for an expression: the
      exact source text a scope traversal spans, of any length; "" otherwise. */
  function SliceRef(bytes: string, e: Expr): string
    requires e.ScopeTraversal? ==> e.start <= e.end <= |bytes|
  {
    if e.ScopeTraversal? then bytes[e.start..e.end] else ""
  }

  function SliceCandidates(bytes: string, attrs: seq<Attribute>): (cs: seq<Candidate>)
    requires RangesWithin(bytes, attrs)
    ensures |cs| == |attrs|
    ensures forall i :: 0 <= i < |attrs| ==> cs[i] == (attrs[i].name, SliceRef(bytes, attrs[i].expr))
  {
    seq(|attrs|, i requires 0 <= i < |attrs| => (attrs[i].name, SliceRef(bytes, attrs[i].expr)))
  }

  /** Distinct attribute names (as HCL's attribute map guarantees) never conflict. */
  lemma DistinctNoConflict(cs: seq<Candidate>)
    requires forall i, j :: 0 <= i < j < |cs| ==> cs[i].0 != cs[j].0
    ensures !Conflicting(cs)
  {
  }

  lemma {:induction false} RecordsExtend(cs: seq<Candidate>, c: Candidate, refs: map<string, string>)
    requires Records(cs, refs) && !Conflicting(cs)
    requires c.1 != "" ==> c.0 !in refs || refs[c.0] == c.1
    ensures !Conflicting(cs + [c])
    ensures Records(cs + [c], if c.1 == "" then refs else refs[c.0 := c.1])
  {
    var ds := cs + [c];
    assert forall i :: 0 <= i < |cs| ==> ds[i] == cs[i];
    forall i, j | 0 <= i < j < |ds| && ds[i].0 == ds[j].0 && ds[i].1 != "" && ds[j].1 != ""
      ensures ds[i].1 == ds[j].1
    {
      if j == |cs| {
        assert cs[i].0 in RefNames(cs);
      }
    }
    var m := if c.1 == "" then refs else refs[c.0 := c.1];
    if c.1 != "" {
      assert ds[|cs|] == c;
    }
    assert RefNames(ds) == if c.1 == "" then RefNames(cs) else RefNames(cs) + {c.0};
  }

  /** The conflict found at candidate `j` against what `refs` already records. */
  lemma ConflictWitness(cs: seq<Candidate>, j: nat, refs: map<string, string>)
    requires j < |cs| && Records(cs[..j], refs)
    requires cs[j].1 != "" && cs[j].0 in refs && refs[cs[j].0] != cs[j].1
    ensures Conflicting(cs)
  {
    var pre := cs[..j];
    assert cs[j].0 in RefNames(pre);
    var i :| 0 <= i < |pre| && pre[i].1 != "" && pre[i].0 == cs[j].0;
    assert cs[i] == pre[i];
  }

  lemma ConflictGrows(cs: seq<Candidate>, k: nat)
    requires k <= |cs| && Conflicting(cs[..k])
    ensures Conflicting(cs)
  {
    var pre := cs[..k];
    var i, j :| 0 <= i < j < |pre| && pre[i].0 == pre[j].0 && pre[i].1 != "" && pre[j].1 != "" && pre[i].1 != pre[j].1;
    assert cs[i] == pre[i] && cs[j] == pre[j];
  }

  /** `findReferences` of the current scraper: every attribute whose value is a
      scope traversal maps to the source text it spans; the map is empty when
      references are switched off or the block is not of the resource's type. */
  method FindReferences(skipRefs: bool, resourceName: string, bytes: string, b: Block)
    returns (res: Result<map<string, string>, ScrapeError>)
    requires RangesWithin(bytes, b.attrs)
    ensures skipRefs || b.typeLabel != resourceName ==> res == Ok(map[])
    ensures !skipRefs && b.typeLabel == resourceName ==>
              (res.Err? <==> Conflicting(SliceCandidates(bytes, b.attrs)))
    ensures !skipRefs && b.typeLabel == resourceName && res.Ok? ==>
              Records(SliceCandidates(bytes, b.attrs), res.value)
              && res.value == RecordedMap(SliceCandidates(bytes, b.attrs))
    ensures DistinctNames(b.attrs) ==> res.Ok?
    ensures res.Err? ==> res.error.ConflictingReference? && res.error.resource == resourceName
                         && res.error.oldRef != res.error.newRef
  {
    if skipRefs {
      return Ok(map[]);
    }
    var refs: map<string, string> := map[];
    if b.typeLabel != resourceName {
      return Ok(refs);
    }
    ghost var cs := SliceCandidates(bytes, b.attrs);
    for i := 0 to |b.attrs|
      invariant !Conflicting(cs[..i])
      invariant Records(cs[..i], refs)
    {
      assert cs[..i + 1] == cs[..i] + [cs[i]];
      var name, expr := b.attrs[i].name, b.attrs[i].expr;
      var ref := "";
      match expr {
        case ScopeTraversal(start, end, _) =>
          ref := bytes[start..end];
        case OtherExpr =>
      }
      if ref == "" {
        RecordsExtend(cs[..i], cs[i], refs);
        continue;
      }
      if name in refs && refs[name] != ref {
        ConflictWitness(cs, i, refs);
        if DistinctNames(b.attrs) { DistinctNoConflict(cs); }
        return Err(ConflictingReference(resourceName, name, refs[name], ref));
      }
      RecordsExtend(cs[..i], cs[i], refs);
      refs := refs[name := ref];
    }
    assert cs[..|b.attrs|] == cs;
    RecordedMapRecords(cs);
    RecordsUnique(cs, refs, RecordedMap(cs));
    return Ok(refs);
  }

  /** The reference text the legacy scraper synthesises: `root.attr` from the
      first and last step of a traversal of at least two steps that starts at a
      root and ends at an attribute; "" for every other expression. */
  function LegacyRef(e: Expr): (r: string)
    ensures r != "" <==> e.ScopeTraversal? && |e.steps| >= 2 && e.steps[0].TraverseRoot? && e.steps[|e.steps| - 1].TraverseAttr?
    ensures r != "" ==> e.ScopeTraversal? && |e.steps| >= 2 && r == e.steps[0].name + "." + e.steps[|e.steps| - 1].name
  {
    match e
    case ScopeTraversal(_, _, steps) =>
      if |steps| >= 2 && steps[0].TraverseRoot? && steps[|steps| - 1].TraverseAttr?
      then steps[0].name + "." + steps[|steps| - 1].name
      else ""
    case OtherExpr => ""
  }

  function LegacyCandidates(attrs: seq<Attribute>): (cs: seq<Candidate>)
    ensures |cs| == |attrs|
    ensures forall i :: 0 <= i < |attrs| ==> cs[i] == (attrs[i].name, LegacyRef(attrs[i].expr))
  {
    seq(|attrs|, i requires 0 <= i < |attrs| => (attrs[i].name, LegacyRef(attrs[i].expr)))
  }

  /** The length of the longest prefix of candidates that all have a reference. */
  function QualifyingPrefix(cs: seq<Candidate>): (k: nat)
    ensures k <= |cs|
    ensures forall i :: 0 <= i < k ==> cs[i].1 != ""
    ensures k < |cs| ==> cs[k].1 == ""
  {
    if cs == [] || cs[0].1 == "" then 0
    else 1 + QualifyingPrefix(cs[1..])
  }

  /** The candidates the legacy scraper reaches: those before the first
      attribute without a legacy reference. */
  function LegacyQualifying(attrs: seq<Attribute>): (pre: seq<Candidate>)
    ensures |pre| <= |attrs|
    ensures forall i :: 0 <= i < |pre| ==> pre[i] == (attrs[i].name, LegacyRef(attrs[i].expr)) && pre[i].1 != ""
    ensures |pre| < |attrs| ==> LegacyRef(attrs[|pre|].expr) == ""
  {
    var cs := LegacyCandidates(attrs);
    cs[..QualifyingPrefix(cs)]
  }

  /** `findReferences` of the legacy scraper: stops at the first attribute that
      is not a `root.….attr` traversal and returns what it has collected so far.
      The attributes are visited in the order of `b.attrs`. */
  method LegacyFindReferences(resourceName: string, b: Block)
    returns (res: Result<map<string, string>, ScrapeError>)
    ensures b.typeLabel != resourceName ==> res == Ok(map[])
    ensures b.typeLabel == resourceName ==>
              && (res.Err? <==> Conflicting(LegacyQualifying(b.attrs)))
              && (res.Ok? ==> Records(LegacyQualifying(b.attrs), res.value))
    ensures DistinctNames(b.attrs) ==> res.Ok?
    ensures res.Err? ==> res.error.ConflictingReference? && res.error.resource == resourceName
                         && res.error.oldRef != res.error.newRef
  {
    var refs: map<string, string> := map[];
    if b.typeLabel != resourceName {
      return Ok(refs);
    }
    ghost var pre := LegacyQualifying(b.attrs);
    for i := 0 to |b.attrs|
      invariant i <= |pre|
      invariant !Conflicting(pre[..i])
      invariant Records(pre[..i], refs)
    {
      var name := b.attrs[i].name;
      var ref := LegacyRef(b.attrs[i].expr);
      if ref == "" {
        assert i == |pre| && pre[..i] == pre;
        return Ok(refs);
      }
      assert pre[i] == (name, ref);
      res := AddLegacyRef(resourceName, pre, i, refs, name, ref);
      if res.Err? {
        if DistinctNames(b.attrs) { DistinctPrefixNoConflict(b.attrs, pre); }
        return;
      }
      refs := res.value;
    }
    assert pre[..|b.attrs|] == pre;
    return Ok(refs);
  }

  /** One reference of the legacy loop: recorded when its attribute has none
      yet or the same one; a conflict otherwise. */
  method AddLegacyRef(resourceName: string, ghost pre: seq<Candidate>, i: nat, refs: map<string, string>,
                      name: string, ref: string)
    returns (res: Result<map<string, string>, ScrapeError>)
    requires i < |pre| && pre[i] == (name, ref) && ref != ""
    requires !Conflicting(pre[..i]) && Records(pre[..i], refs)
    ensures res.Ok? ==> !Conflicting(pre[..i + 1]) && Records(pre[..i + 1], res.value)
    ensures res.Err? ==> Conflicting(pre) && res.error.ConflictingReference? && res.error.resource == resourceName
                         && res.error.oldRef != res.error.newRef
  {
    if name in refs && refs[name] != ref {
      ConflictWitness(pre, i, refs);
      return Err(ConflictingReference(resourceName, name, refs[name], ref));
    }
    RecordsExtend(pre[..i], pre[i], refs);
    assert pre[..i + 1] == pre[..i] + [pre[i]];
    return Ok(refs[name := ref]);
  }

  /** The candidates of a prefix of attributes with distinct names never conflict. */
  lemma DistinctPrefixNoConflict(attrs: seq<Attribute>, pre: seq<Candidate>)
    requires DistinctNames(attrs) && |pre| <= |attrs|
    requires forall i :: 0 <= i < |pre| ==> pre[i].0 == attrs[i].name
    ensures !Conflicting(pre)
  {
    DistinctNoConflict(pre);
  }
}
