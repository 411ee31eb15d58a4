/** The relaxed name matching used when no example block carries the
    resource's own type blockType. */
module Matching {
  import opened Strings

  /** The name without its first `limit` underscore-separated segments is
      contained in `blockType`, for some admissible number of dropped segments
      (`limit == -1` admits any number). */
  predicate SuffixMatches(blockType: string, name: string, limit: int)
  {
    var parts := Split(name, '_');
    exists i | 0 <= i < |parts| && (limit == -1 || i <= limit) :: Contains(blockType, Join(parts[i..], "_"))
  }

  /** `suffixMatch`: tries the suffixes of the name in order, shortest drop first. */
  method SuffixMatch(blockType: string, name: string, limit: int) returns (found: bool)
    ensures found == SuffixMatches(blockType, name, limit)
  {
    var parts := Split(name, '_');
    var i := 0;
    while i < |parts| && (limit == -1 || i <= limit)
      invariant 0 <= i <= |parts|
      invariant forall k :: 0 <= k < i ==> !Contains(blockType, Join(parts[k..], "_"))
    {
      var s := Join(parts[i..], "_");
      if Contains(blockType, s) {
        return true;
      }
      i := i + 1;
    }
    return false;
  }

  /** With limit 0 the test is plain containment of the whole name. */
  lemma SuffixMatchZero(blockType: string, name: string)
    ensures SuffixMatches(blockType, name, 0) <==> Contains(blockType, name)
  {
    SplitJoin(name, '_');
    var parts := Split(name, '_');
    assert parts[0..] == parts;
  }

  /** With limit 1 (the only limit the resolver uses): the blockType contains the
      name, or the name has at least two segments and the blockType contains the
      name without its first one. */
  lemma SuffixMatchOne(blockType: string, name: string)
    ensures SuffixMatches(blockType, name, 1) <==>
      || Contains(blockType, name)
      || (|Split(name, '_')| >= 2 && Contains(blockType, Join(Split(name, '_')[1..], "_")))
  {
    SplitJoin(name, '_');
    var parts := Split(name, '_');
    assert parts[0..] == parts;
  }

  /** A larger limit never turns a match into a mismatch; -1 admits the most. */
  lemma SuffixMatchMonotone(blockType: string, name: string, l1: int, l2: int)
    requires 0 <= l1 <= l2 || l2 == -1
    requires SuffixMatches(blockType, name, l1)
    ensures SuffixMatches(blockType, name, l2)
  {
  }

  /** Dropping the first segment of `p_q` leaves `q`. */
  lemma DropFirstSegment(p: string, q: string)
    requires '_' !in p
    ensures Split(p + "_" + q, '_')[0] == p
    ensures Join(Split(p + "_" + q, '_')[1..], "_") == q
  {
    SplitPrefix(p, q, '_');
    SplitJoin(q, '_');
    var parts := Split(p + "_" + q, '_');
    assert parts[1..] == Split(q, '_');
  }

  /** A page titled `widget_instance_attachment` does not promote a block of type
      `widget_instance`: neither the name nor `instance_attachment` fits in it. */
  lemma NoPromotionOfShorterLabel()
    ensures !SuffixMatches("widget_instance", "widget_instance_attachment", 1)
  {
    var name := "widget_instance_attachment";
    assert name == "widget" + "_" + "instance_attachment";
    DropFirstSegment("widget", "instance_attachment");
    SplitPrefix("widget", "instance_attachment", '_');
    SuffixMatchOne("widget_instance", name);
  }

  /** The opposite direction does promote: a block `widget_instance_attachment`
      on a page titled `widget_instance`. */
  lemma PromotionOfLongerLabel()
    ensures SuffixMatches("widget_instance_attachment", "widget_instance", 1)
  {
    var blockType := "widget_instance_attachment";
    assert OccursAt(blockType, "widget_instance", 0);
    SuffixMatchOne(blockType, "widget_instance");
  }
}
