/** The argument-documentation walk over a rendered HTML page. The page is an
    explicit node store: node `i` names its parent, first child and next
    sibling by index, and the store is in document order, so every link that
    leads down or forward leads to a larger index. Both the current and the
    legacy scraper walk it with the same code. */
module DocTree {
  import opened Wrappers
  import opened Strings

  datatype NodeKind = TextNode | ElementNode | OtherNode

  datatype Node = Node(kind: NodeKind, data: string, parent: Option<nat>,
                       firstChild: Option<nat>, nextSibling: Option<nat>)

  type Dom = seq<Node>

  /** The node identities of a page. */
  function Indices(dom: Dom): (ids: set<nat>)
    ensures forall i: nat :: i in ids <==> i < |dom|
  {
    if dom == [] then {} else Indices(dom[..|dom| - 1]) + {|dom| - 1}
  }

  /** Links stay inside the store and follow document order. */
  predicate LinksOk(dom: Dom, i: nat)
    requires i < |dom|
  {
    var n := dom[i];
    && (n.parent.Some? ==> n.parent.value < i)
    && (n.firstChild.Some? ==> i < n.firstChild.value < |dom| && dom[n.firstChild.value].parent == Some(i))
    && (n.nextSibling.Some? ==> i < n.nextSibling.value < |dom| && dom[n.nextSibling.value].parent == n.parent)
  }

  /** A page whose links are consistent, as every parsed HTML tree's are. */
  predicate Linked(dom: Dom)
  {
    forall i :: 0 <= i < |dom| ==> LinksOk(dom, i)
  }

  /** The outcome of a walk: the text collected, the attribute name and the
      set of nodes processed so far on the page; or the nil dereference at
      which the Go walk panics. */
  datatype Walk = Walk(text: string, name: string, processed: set<nat>) | NilDeref

  /** The walk `w` with text `t` written before its own. */
  function Prepend(t: string, w: Walk): Walk
  {
    if w.NilDeref? then w else Walk(t + w.text, w.name, w.processed)
  }

  /** Writing `a` and then `b` before a walk writes `a + b` before it. */
  lemma PrependTwice(a: string, b: string, w: Walk)
    ensures Prepend(a, Prepend(b, w)) == Prepend(a + b, w)
  {
    if w.Walk? {
      assert a + (b + w.text) == (a + b) + w.text;
    }
  }

  /** `scrapeDocString` from node `n`: a processed node yields nothing; an
      element is entered at its first child, and one without a child is a nil
      dereference; a text node gives the attribute name if none has been found
      yet, and otherwise its text, followed by the text of its parent's later
      siblings, and a text node without a parent is a nil dereference. */
  function DocString(dom: Dom, n: nat, name: string, processed: set<nat>): (w: Walk)
    requires Linked(dom) && n < |dom| && processed <= Indices(dom)
    ensures w.Walk? ==> processed <= w.processed <= Indices(dom) && n in w.processed
    ensures n in processed ==> w == Walk("", name, processed)
    ensures w.Walk? && name != "" ==> w.name == name
    decreases Indices(dom) - processed, 1, 0
  {
    if n in processed then Walk("", name, processed)
    else
      var p := processed + {n};
      if dom[n].kind == ElementNode then
        if dom[n].firstChild.None? then NilDeref
        else
          assert LinksOk(dom, n);
          DocString(dom, dom[n].firstChild.value, name, p)
      else if dom[n].parent.None? then NilDeref
      else
        var parent := dom[n].parent.value;
        assert LinksOk(dom, n) && LinksOk(dom, parent);
        var rest := Siblings(dom, dom[parent].nextSibling, if name == "" then dom[n].data else name, p);
        Prepend(if name == "" then "" else dom[n].data, rest)
  }

  /** The sibling loop of `scrapeDocString` from node `s` on: processed
      siblings are skipped, text siblings give their text, elements with a child
      are walked from that child, other nodes give nothing. A nil dereference
      inside a walk ends the loop. */
  function Siblings(dom: Dom, s: Option<nat>, name: string, processed: set<nat>): (w: Walk)
    requires Linked(dom) && processed <= Indices(dom) && (s.Some? ==> s.value < |dom|)
    ensures w.Walk? ==> processed <= w.processed <= Indices(dom)
    ensures w.Walk? && name != "" ==> w.name == name
    decreases Indices(dom) - processed, 0, if s.Some? then |dom| - s.value else 0
  {
    if s.None? then Walk("", name, processed)
    else
      var i := s.value;
      assert LinksOk(dom, i);
      var next := dom[i].nextSibling;
      if i in processed then Siblings(dom, next, name, processed)
      else
        var p := processed + {i};
        match dom[i].kind
        case TextNode =>
          var rest := Siblings(dom, next, name, p);
          Prepend(dom[i].data, rest)
        case ElementNode =>
          if dom[i].firstChild.None? then Siblings(dom, next, name, p)
          else
            var inner := DocString(dom, dom[i].firstChild.value, name, p);
            if inner.NilDeref? then NilDeref
            else
              var rest := Siblings(dom, next, inner.name, inner.processed);
              Prepend(inner.text, rest)
        case OtherNode => Siblings(dom, next, name, p)
  }

  /** The start of a walk from an unprocessed node that is not an element, as
      `ScrapeDocString` takes it. */
  lemma DocStringTextStep(dom: Dom, n: nat, name: string, processed: set<nat>)
    requires Linked(dom) && n < |dom| && processed <= Indices(dom)
    requires n !in processed && dom[n].kind != ElementNode
    ensures dom[n].parent.None? ==> DocString(dom, n, name, processed) == NilDeref
    ensures dom[n].parent.Some? ==>
              && dom[n].parent.value < n && LinksOk(dom, dom[n].parent.value)
              && var rest := Siblings(dom, dom[dom[n].parent.value].nextSibling,
                                      if name == "" then dom[n].data else name, processed + {n});
                 DocString(dom, n, name, processed) == Prepend(if name == "" then "" else dom[n].data, rest)
  {
    assert LinksOk(dom, n);
  }

  /** The walk from an unprocessed element continues at its first child, and
      dereferences nil when there is none. */
  lemma DocStringElementStep(dom: Dom, n: nat, name: string, processed: set<nat>)
    requires Linked(dom) && n < |dom| && processed <= Indices(dom)
    requires n !in processed && dom[n].kind == ElementNode
    ensures dom[n].firstChild.None? ==> DocString(dom, n, name, processed) == NilDeref
    ensures dom[n].firstChild.Some? ==>
              && dom[n].firstChild.value < |dom|
              && DocString(dom, n, name, processed) == DocString(dom, dom[n].firstChild.value, name, processed + {n})
  {
    assert LinksOk(dom, n);
  }

  // One step of the sibling loop, case by case, as `ScrapeDocString` takes it.

  lemma StepSkip(dom: Dom, i: nat, name: string, processed: set<nat>)
    requires Linked(dom) && processed <= Indices(dom) && i < |dom| && i in processed
    ensures LinksOk(dom, i)
    ensures Siblings(dom, Some(i), name, processed) == Siblings(dom, dom[i].nextSibling, name, processed)
  {
  }

  lemma StepText(dom: Dom, i: nat, name: string, processed: set<nat>)
    requires Linked(dom) && processed <= Indices(dom) && i < |dom| && i !in processed
    requires dom[i].kind == TextNode
    ensures LinksOk(dom, i)
    ensures var rest := Siblings(dom, dom[i].nextSibling, name, processed + {i});
            Siblings(dom, Some(i), name, processed) == Prepend(dom[i].data, rest)
  {
  }

  lemma StepEnter(dom: Dom, i: nat, name: string, processed: set<nat>)
    requires Linked(dom) && processed <= Indices(dom) && i < |dom| && i !in processed
    requires dom[i].kind == ElementNode && dom[i].firstChild.Some?
    ensures LinksOk(dom, i) && dom[i].firstChild.value < |dom|
    ensures var inner := DocString(dom, dom[i].firstChild.value, name, processed + {i});
            Siblings(dom, Some(i), name, processed) ==
              if inner.NilDeref? then NilDeref
              else Prepend(inner.text, Siblings(dom, dom[i].nextSibling, inner.name, inner.processed))
  {
  }

  lemma StepOther(dom: Dom, i: nat, name: string, processed: set<nat>)
    requires Linked(dom) && processed <= Indices(dom) && i < |dom| && i !in processed
    requires dom[i].kind == OtherNode || (dom[i].kind == ElementNode && dom[i].firstChild.None?)
    ensures LinksOk(dom, i)
    ensures Siblings(dom, Some(i), name, processed) == Siblings(dom, dom[i].nextSibling, name, processed + {i})
  {
  }

  /** `scrapeDocString`: the recursive walk, threading the page's shared
      `processed` set and the attribute name, on a walk that does not
      dereference nil. */
  method ScrapeDocString(dom: Dom, n: nat, name: string, processed: set<nat>)
    returns (doc: string, name': string, processed': set<nat>)
    requires Linked(dom) && n < |dom| && processed <= Indices(dom)
    requires DocString(dom, n, name, processed).Walk?
    ensures Walk(doc, name', processed') == DocString(dom, n, name, processed)
    decreases Indices(dom) - processed, 1
  {
    hide DocString, Siblings, Linked;
    if n in processed {
      return "", name, processed;
    }
    processed' := processed + {n};
    assert n in Indices(dom) - processed && n !in Indices(dom) - processed';
    assert Indices(dom) - processed' < Indices(dom) - processed;
    if dom[n].kind == ElementNode {
      DocStringElementStep(dom, n, name, processed);
      doc, name', processed' := ScrapeDocString(dom, dom[n].firstChild.value, name, processed');
      return;
    }
    var sb := "";
    name' := name;
    if name' == "" {
      name' := dom[n].data;
    } else {
      sb := sb + dom[n].data;
    }
    DocStringTextStep(dom, n, name, processed);
    var parent := dom[n].parent.value;
    var rest;
    rest, name', processed' := ScrapeSiblings(dom, dom[parent].nextSibling, name', processed');
    doc := sb + rest;
  }

  /** The loop of `scrapeDocString` over the later siblings of the parent. */
  method ScrapeSiblings(dom: Dom, s0: Option<nat>, name: string, processed: set<nat>)
    returns (text: string, name': string, processed': set<nat>)
    requires Linked(dom) && processed <= Indices(dom) && (s0.Some? ==> s0.value < |dom|)
    requires Siblings(dom, s0, name, processed).Walk?
    ensures Walk(text, name', processed') == Siblings(dom, s0, name, processed)
    decreases Indices(dom) - processed, 0
  {
    var sb := "";
    var s := s0;
    name', processed' := name, processed;
    ghost var target := Siblings(dom, s0, name, processed);
    while s.Some?
      invariant processed <= processed' <= Indices(dom)
      invariant s.Some? ==> s.value < |dom|
      invariant Prepend(sb, Siblings(dom, s, name', processed')) == target
      decreases |dom| - (if s.Some? then s.value else |dom|)
    {
      var i := s.value;
      s := dom[i].nextSibling;
      if i in processed' {
        StepSkip(dom, i, name', processed');
        continue;
      }
      if dom[i].kind == TextNode {
        StepText(dom, i, name', processed');
        PrependTwice(sb, dom[i].data, Siblings(dom, s, name', processed' + {i}));
        processed' := processed' + {i};
        sb := sb + dom[i].data;
      } else if dom[i].kind == ElementNode && dom[i].firstChild.Some? {
        StepEnter(dom, i, name', processed');
        assert i in Indices(dom) - processed && i !in Indices(dom) - (processed' + {i});
        assert Indices(dom) - (processed' + {i}) < Indices(dom) - processed;
        var inner;
        inner, name', processed' := ScrapeDocString(dom, dom[i].firstChild.value, name', processed' + {i});
        PrependTwice(sb, inner, Siblings(dom, s, name', processed'));
        sb := sb + inner;
      } else {
        StepOther(dom, i, name', processed');
        processed' := processed' + {i};
      }
    }
    text := sb;
  }

  /** The text of the nodes `ns`, in order. */
  function Texts(dom: Dom, ns: seq<nat>): string
    requires forall k :: 0 <= k < |ns| ==> ns[k] < |dom|
  {
    if ns == [] then "" else dom[ns[0]].data + Texts(dom, ns[1..])
  }

  lemma {:induction false} TextsAppend(dom: Dom, a: seq<nat>, b: seq<nat>)
    requires forall k :: 0 <= k < |a| ==> a[k] < |dom|
    requires forall k :: 0 <= k < |b| ==> b[k] < |dom|
    ensures Texts(dom, a + b) == Texts(dom, a) + Texts(dom, b)
  {
    if a == [] {
      assert a + b == b;
    } else {
      assert (a + b)[1..] == a[1..] + b;
      TextsAppend(dom, a[1..], b);
    }
  }

  /** The text of walk `w` is the text of the nodes `ns`, in order: distinct
      nodes that are no elements and that the walk processed after `processed`. */
  predicate SourcedBy(dom: Dom, w: Walk, processed: set<nat>, ns: seq<nat>)
  {
    && w.Walk?
    && (forall k :: 0 <= k < |ns| ==> ns[k] < |dom| && ns[k] in w.processed - processed && dom[ns[k]].kind != ElementNode)
    && (forall k, l :: 0 <= k < l < |ns| ==> ns[k] != ns[l])
    && w.text == Texts(dom, ns)
  }

  /** The walk of `SiblingsSources` from a first sibling that the walk skips or
      that adds no text. */
  lemma SourcesShift(dom: Dom, w: Walk, processed: set<nat>, processed': set<nat>, ns: seq<nat>)
    requires processed <= processed' && SourcedBy(dom, w, processed', ns)
    ensures SourcedBy(dom, w, processed, ns)
  {
  }

  /** A node written before the text of a walk that started after it. */
  lemma SourcesCons(dom: Dom, i: nat, w: Walk, processed: set<nat>, ns: seq<nat>)
    requires i < |dom| && dom[i].kind != ElementNode && i !in processed
    requires SourcedBy(dom, w, processed + {i}, ns) && i in w.processed
    ensures SourcedBy(dom, Prepend(dom[i].data, w), processed, [i] + ns)
  {
    assert ([i] + ns)[1..] == ns;
  }

  /** The nodes whose text the walk from `n` collects. */
  lemma {:induction false} DocStringSources(dom: Dom, n: nat, name: string, processed: set<nat>) returns (ns: seq<nat>)
    requires Linked(dom) && n < |dom| && processed <= Indices(dom)
    requires DocString(dom, n, name, processed).Walk?
    ensures SourcedBy(dom, DocString(dom, n, name, processed), processed, ns)
    decreases Indices(dom) - processed, 1, 0
  {
    if n in processed {
      return [];
    }
    var p := processed + {n};
    if dom[n].kind == ElementNode {
      DocStringElementStep(dom, n, name, processed);
      ns := DocStringSources(dom, dom[n].firstChild.value, name, p);
      SourcesShift(dom, DocString(dom, n, name, processed), processed, p, ns);
    } else {
      DocStringTextStep(dom, n, name, processed);
      var parent := dom[n].parent.value;
      var rest := Siblings(dom, dom[parent].nextSibling, if name == "" then dom[n].data else name, p);
      var ns' := SiblingsSources(dom, dom[parent].nextSibling, if name == "" then dom[n].data else name, p);
      if name == "" {
        assert "" + rest.text == rest.text;
        ns := ns';
        SourcesShift(dom, rest, processed, p, ns);
      } else {
        ns := [n] + ns';
        SourcesCons(dom, n, rest, processed, ns');
      }
    }
  }

  /** The nodes whose text the sibling loop from `s` collects. */
  lemma {:induction false} SiblingsSources(dom: Dom, s: Option<nat>, name: string, processed: set<nat>)
    returns (ns: seq<nat>)
    requires Linked(dom) && processed <= Indices(dom) && (s.Some? ==> s.value < |dom|)
    requires Siblings(dom, s, name, processed).Walk?
    ensures SourcedBy(dom, Siblings(dom, s, name, processed), processed, ns)
    decreases Indices(dom) - processed, 0, if s.Some? then |dom| - s.value else 0
  {
    if s.None? {
      return [];
    }
    var i := s.value;
    assert LinksOk(dom, i);
    var next := dom[i].nextSibling;
    if i in processed {
      StepSkip(dom, i, name, processed);
      ns := SiblingsSources(dom, next, name, processed);
      return;
    }
    var p := processed + {i};
    if dom[i].kind == TextNode {
      StepText(dom, i, name, processed);
      var ns' := SiblingsSources(dom, next, name, p);
      ns := [i] + ns';
      SourcesCons(dom, i, Siblings(dom, next, name, p), processed, ns');
    } else if dom[i].kind == ElementNode && dom[i].firstChild.Some? {
      StepEnter(dom, i, name, processed);
      var c := dom[i].firstChild.value;
      var inner := DocString(dom, c, name, p);
      var ns1 := DocStringSources(dom, c, name, p);
      var rest := Siblings(dom, next, inner.name, inner.processed);
      var ns2 := SiblingsSources(dom, next, inner.name, inner.processed);
      ns := ns1 + ns2;
      TextsAppend(dom, ns1, ns2);
      forall k, l | 0 <= k < l < |ns|
        ensures ns[k] != ns[l]
      {
        if l < |ns1| {
          assert ns[k] == ns1[k] && ns[l] == ns1[l];
        } else if k >= |ns1| {
          assert ns[k] == ns2[k - |ns1|] && ns[l] == ns2[l - |ns1|];
        } else {
          assert ns[k] == ns1[k] && ns1[k] in inner.processed;
          assert ns[l] == ns2[l - |ns1|] && ns2[l - |ns1|] !in inner.processed;
        }
      }
    } else {
      StepOther(dom, i, name, processed);
      ns := SiblingsSources(dom, next, name, p);
      SourcesShift(dom, Siblings(dom, s, name, processed), processed, p, ns);
    }
  }

  /** The text of a walk is the text of distinct nodes it processed, so each
      node's text is collected at most once. */
  lemma EachNodeAtMostOnce(dom: Dom, n: nat, name: string, processed: set<nat>)
    requires Linked(dom) && n < |dom| && processed <= Indices(dom)
    requires DocString(dom, n, name, processed).Walk?
    ensures exists ns :: SourcedBy(dom, DocString(dom, n, name, processed), processed, ns)
  {
    var ns := DocStringSources(dom, n, name, processed);
  }

  /** The argument docs a list of anchors adds to `docs`: each anchor is walked
      with an empty name and the page's shared `processed` set; a walk that
      collects no text at all adds nothing, any other stores its text trimmed
      under the name it found, replacing an earlier entry; a walk that
      dereferences nil ends in the panic `None`. */
  function FieldDocs(dom: Dom, anchors: seq<nat>, processed: set<nat>, docs: map<string, string>)
    : (r: Option<map<string, string>>)
    requires Linked(dom) && processed <= Indices(dom)
    requires forall k :: 0 <= k < |anchors| ==> anchors[k] < |dom|
    ensures r.Some? ==> docs.Keys <= r.value.Keys
  {
    if anchors == [] then Some(docs)
    else
      var w := DocString(dom, anchors[0], "", processed);
      if w.NilDeref? then None
      else
        FieldDocs(dom, anchors[1..], w.processed, Store(docs, w))
  }

  /** The walks of `scrapeFieldDocs`, anchor by anchor: each starts with an
      empty name and the set the walk before it left, and the first nil
      dereference ends them. */
  function FieldWalks(dom: Dom, anchors: seq<nat>, processed: set<nat>): (ws: seq<Walk>)
    requires Linked(dom) && processed <= Indices(dom)
    requires forall k :: 0 <= k < |anchors| ==> anchors[k] < |dom|
    ensures |ws| <= |anchors|
    ensures forall j :: 0 <= j < |ws| - 1 ==> ws[j].Walk?
    ensures |ws| < |anchors| ==> ws != [] && ws[|ws| - 1].NilDeref?
  {
    if anchors == [] then []
    else
      var w := DocString(dom, anchors[0], "", processed);
      if w.NilDeref? then [w] else [w] + FieldWalks(dom, anchors[1..], w.processed)
  }

  /** No walk of `ws` dereferences nil. */
  predicate Complete(ws: seq<Walk>)
  {
    forall j :: 0 <= j < |ws| ==> ws[j].Walk?
  }

  /** Walk `w` stores documentation under `k`. */
  predicate Writes(w: Walk, k: string)
  {
    w.Walk? && w.text != "" && w.name == k
  }

  /** `scrapeFieldDocs` ends without a panic exactly when none of its walks
      dereferences nil. */
  lemma {:induction false} FieldDocsDefined(dom: Dom, anchors: seq<nat>, processed: set<nat>, docs: map<string, string>)
    requires Linked(dom) && processed <= Indices(dom)
    requires forall k :: 0 <= k < |anchors| ==> anchors[k] < |dom|
    ensures FieldDocs(dom, anchors, processed, docs).Some? <==> Complete(FieldWalks(dom, anchors, processed))
  {
    if anchors != [] {
      var w := DocString(dom, anchors[0], "", processed);
      if w.Walk? {
        FieldDocsDefined(dom, anchors[1..], w.processed, Store(docs, w));
        var ws, ws' := FieldWalks(dom, anchors, processed), FieldWalks(dom, anchors[1..], w.processed);
        assert ws == [w] + ws';
        assert forall j :: 0 <= j < |ws'| ==> ws'[j] == ws[j + 1];
      } else {
        assert FieldWalks(dom, anchors, processed)[0] == w;
      }
    }
  }

  /** `docs` after the entry walk `w` stores, if any. */
  function Store(docs: map<string, string>, w: Walk): map<string, string>
    requires w.Walk?
  {
    if w.text == "" then docs else docs[w.name := TrimSpace(w.text)]
  }

  /** Some walk of `ws` writes `k`. */
  ghost predicate Written(ws: seq<Walk>, k: string)
  {
    exists j :: 0 <= j < |ws| && Writes(ws[j], k)
  }

  /** Walk `j` is the last of `ws` that writes `k`. */
  predicate LastWriter(ws: seq<Walk>, j: nat, k: string)
  {
    j < |ws| && Writes(ws[j], k) && forall l :: j < l < |ws| ==> !Writes(ws[l], k)
  }

  /** `r` is `docs` after the walks `ws`, the last write to a key winning: a
      key is in `r` exactly when it was in `docs` or some walk writes it; it
      holds the trimmed text of the last walk that writes it; and a key no walk
      writes keeps its entry. */
  ghost predicate LastWriteWins(r: map<string, string>, docs: map<string, string>, ws: seq<Walk>)
  {
    && (forall k :: k in r <==> k in docs || Written(ws, k))
    && (forall j: nat, k :: LastWriter(ws, j, k) ==> k in r && r[k] == TrimSpace(ws[j].text))
    && (forall k :: k in docs && !Written(ws, k) ==> k in r && r[k] == docs[k])
  }

  lemma WrittenCons(w: Walk, ws: seq<Walk>, k: string)
    ensures Written([w] + ws, k) <==> Writes(w, k) || Written(ws, k)
  {
    var ws' := [w] + ws;
    if Written(ws, k) {
      var j :| 0 <= j < |ws| && Writes(ws[j], k);
      assert ws'[j + 1] == ws[j];
    }
    if Written(ws', k) {
      var j :| 0 <= j < |ws'| && Writes(ws'[j], k);
      if j > 0 {
        assert ws[j - 1] == ws'[j];
      }
    }
    assert ws'[0] == w;
  }

  lemma LastWriterCons(w: Walk, ws: seq<Walk>, j: nat, k: string)
    requires LastWriter([w] + ws, j, k)
    ensures j > 0 ==> LastWriter(ws, j - 1, k)
    ensures j == 0 ==> w == ([w] + ws)[j] && Writes(w, k) && !Written(ws, k)
  {
    var ws' := [w] + ws;
    assert forall l :: 0 <= l < |ws| ==> ws[l] == ws'[l + 1];
    WrittenCons(w, ws, k);
  }

  /** A first walk that stores its entry before the others. */
  lemma LastWriteWinsCons(r: map<string, string>, docs: map<string, string>, w: Walk, ws: seq<Walk>)
    requires w.Walk? && LastWriteWins(r, Store(docs, w), ws)
    ensures LastWriteWins(r, docs, [w] + ws)
  {
    forall k ensures Written([w] + ws, k) <==> Writes(w, k) || Written(ws, k) {
      WrittenCons(w, ws, k);
    }
    forall j: nat, k | LastWriter([w] + ws, j, k)
      ensures k in r && r[k] == TrimSpace(([w] + ws)[j].text)
    {
      LastWriterCons(w, ws, j, k);
    }
  }

  /** The argument docs after `scrapeFieldDocs` are the docs before them with
      the last write to each key winning. */
  lemma {:induction false} FieldDocsLastWins(dom: Dom, anchors: seq<nat>, processed: set<nat>, docs: map<string, string>)
    requires Linked(dom) && processed <= Indices(dom)
    requires forall k :: 0 <= k < |anchors| ==> anchors[k] < |dom|
    requires FieldDocs(dom, anchors, processed, docs).Some?
    ensures LastWriteWins(FieldDocs(dom, anchors, processed, docs).value, docs, FieldWalks(dom, anchors, processed))
  {
    if anchors != [] {
      var w := DocString(dom, anchors[0], "", processed);
      FieldDocsLastWins(dom, anchors[1..], w.processed, Store(docs, w));
      assert FieldWalks(dom, anchors, processed) == [w] + FieldWalks(dom, anchors[1..], w.processed);
      LastWriteWinsCons(FieldDocs(dom, anchors, processed, docs).value, docs, w, FieldWalks(dom, anchors[1..], w.processed));
    }
  }

  /** Every entry `scrapeFieldDocs` stores needs no further trimming. */
  lemma {:induction false} FieldDocsTrimmed(dom: Dom, anchors: seq<nat>, processed: set<nat>, docs: map<string, string>)
    requires Linked(dom) && processed <= Indices(dom)
    requires forall k :: 0 <= k < |anchors| ==> anchors[k] < |dom|
    requires FieldDocs(dom, anchors, processed, docs).Some?
    ensures var r := FieldDocs(dom, anchors, processed, docs).value;
            forall k :: k in r ==> (k in docs && r[k] == docs[k]) || TrimSpace(r[k]) == r[k]
  {
    if anchors != [] {
      var w := DocString(dom, anchors[0], "", processed);
      FieldDocsTrimmed(dom, anchors[1..], w.processed, Store(docs, w));
      if w.text != "" {
        TrimSpaceIdempotent(w.text);
      }
    }
  }

  /** The first text the walk meets becomes the attribute name and is not part
      of the documentation text; a name once found is never replaced. */
  lemma FirstTextIsName(dom: Dom, n: nat, processed: set<nat>)
    requires Linked(dom) && n < |dom| && processed <= Indices(dom)
    requires n !in processed && dom[n].kind != ElementNode && dom[n].parent.Some? && dom[n].data != ""
    requires DocString(dom, n, "", processed).Walk?
    ensures dom[n].parent.value < n && LinksOk(dom, dom[n].parent.value)
    ensures DocString(dom, n, "", processed).name == dom[n].data
    ensures DocString(dom, n, "", processed) ==
              Siblings(dom, dom[dom[n].parent.value].nextSibling, dom[n].data, processed + {n})
  {
    DocStringTextStep(dom, n, "", processed);
    var rest := Siblings(dom, dom[dom[n].parent.value].nextSibling, dom[n].data, processed + {n});
    assert "" + rest.text == rest.text;
  }

  /** An anchor that an earlier anchor's walk already reached adds no entry. */
  lemma ProcessedAnchorAddsNothing(dom: Dom, a: nat, anchors: seq<nat>, processed: set<nat>, docs: map<string, string>)
    requires Linked(dom) && processed <= Indices(dom) && a < |dom| && a in processed
    requires forall k :: 0 <= k < |anchors| ==> anchors[k] < |dom|
    ensures FieldDocs(dom, [a] + anchors, processed, docs) == FieldDocs(dom, anchors, processed, docs)
  {
    assert ([a] + anchors)[1..] == anchors;
  }

  /** Only a walk whose raw text is empty is dropped: a walk that collects
      white space only stores the empty documentation. */
  lemma BlankDocIsStored(dom: Dom, a: nat, processed: set<nat>, docs: map<string, string>)
    requires Linked(dom) && processed <= Indices(dom) && a < |dom|
    requires var w := DocString(dom, a, "", processed);
             w.Walk? && w.text != "" && forall k :: 0 <= k < |w.text| ==> IsSpace(w.text[k])
    ensures FieldDocs(dom, [a], processed, docs) == Some(docs[DocString(dom, a, "", processed).name := ""])
  {
    TrimSpaceEmpty(DocString(dom, a, "", processed).text);
  }

  /** The page `<html><head></head><body><ul><li><code>subnet_id</code>The ID
      of the subnet.<em>(required)</em></li></ul></body></html>` as a node
      store, with its empty `head`. */
  function SubnetPage(): Dom
  {
    [ Node(ElementNode, "html", None, Some(1), None),
      Node(ElementNode, "head", Some(0), None, Some(2)),
      Node(ElementNode, "body", Some(0), Some(3), None),
      Node(ElementNode, "ul", Some(2), Some(4), None),
      Node(ElementNode, "li", Some(3), Some(5), None),
      Node(ElementNode, "code", Some(4), Some(6), Some(7)),
      Node(TextNode, "subnet_id", Some(5), None, None),
      Node(TextNode, "The ID of the subnet.", Some(4), None, Some(8)),
      Node(ElementNode, "em", Some(4), Some(9), None),
      Node(TextNode, "(required)", Some(8), None, None) ]
  }

  lemma SubnetPageLinked()
    ensures Linked(SubnetPage())
  {
    var dom := SubnetPage();
    forall i | 0 <= i < |dom| ensures LinksOk(dom, i) {}
  }

  /** Walking the empty `head` dereferences its missing first child. */
  lemma EmptyHeadIsNilDeref()
    ensures Linked(SubnetPage())
    ensures DocString(SubnetPage(), 1, "", {}) == NilDeref
  {
    SubnetPageLinked();
    DocStringElementStep(SubnetPage(), 1, "", {});
  }

  lemma SubnetPageEmphasis()
    ensures Linked(SubnetPage())
    ensures Siblings(SubnetPage(), Some(8), "subnet_id", {5, 6, 7}) == Walk("(required)", "subnet_id", {5, 6, 7, 8, 9})
  {
    SubnetPageLinked();
    var dom, name := SubnetPage(), "subnet_id";
    DocStringTextStep(dom, 9, name, {5, 6, 7, 8});
    assert DocString(dom, 9, name, {5, 6, 7, 8}) == Walk("(required)", name, {5, 6, 7, 8, 9});
    StepEnter(dom, 8, name, {5, 6, 7});
  }

  lemma SubnetPageSiblings()
    ensures Linked(SubnetPage())
    ensures Siblings(SubnetPage(), Some(7), "subnet_id", {5, 6}) ==
              Walk("The ID of the subnet.(required)", "subnet_id", {5, 6, 7, 8, 9})
  {
    SubnetPageEmphasis();
    StepText(SubnetPage(), 7, "subnet_id", {5, 6});
    assert {5, 6} + {7} == {5, 6, 7};
    assert "The ID of the subnet." + "(required)" == "The ID of the subnet.(required)";
  }

  /** The walk from the `code` element enters it, takes its text as the name
      and collects the text after it, across the `em` element. */
  lemma SubnetPageWalk()
    ensures Linked(SubnetPage())
    ensures DocString(SubnetPage(), 5, "", {}) ==
              Walk("The ID of the subnet.(required)", "subnet_id", {5, 6, 7, 8, 9})
  {
    SubnetPageSiblings();
    var dom := SubnetPage();
    DocStringElementStep(dom, 5, "", {});
    DocStringTextStep(dom, 6, "", {5});
    assert {} + {5} == {5} && {5} + {6} == {5, 6};
  }

  lemma SubnetPageTrimmed()
    ensures TrimSpace("The ID of the subnet.(required)") == "The ID of the subnet.(required)"
  {
    var t := "The ID of the subnet.(required)";
    assert !IsSpace(t[0]) && !IsSpace(t[|t| - 1]);
    assert TrimLeft(t) == t;
  }

  /** The text after the anchor and the text inside a following element are
      concatenated with nothing in between. */
  lemma SubnetPageDoc()
    ensures Linked(SubnetPage())
    ensures FieldDocs(SubnetPage(), [5], {}, map[]) == Some(map["subnet_id" := "The ID of the subnet.(required)"])
  {
    SubnetPageWalk();
    SubnetPageTrimmed();
    var t := "The ID of the subnet.(required)";
    assert FieldDocs(SubnetPage(), [5], {}, map[]) == FieldDocs(SubnetPage(), [], {5, 6, 7, 8, 9}, map["subnet_id" := TrimSpace(t)]);
  }
}
