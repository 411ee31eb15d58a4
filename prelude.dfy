/** The prelude ("front matter") of a documentation page: lines of the form
    `key: value`, of which `page_title`, `description` and `subcategory` are
    read. Both the current and the legacy scraper scan it the same way. */
module Prelude {
  import opened Wrappers
  import opened Strings

  const KeySubCategory: string := "subcategory"
  const KeyDescription: string := "description"
  const KeyPageTitle: string := "page_title"

  /** The colon-separated fields of a line. */
  function Fields(line: string): (kv: seq<string>)
    ensures |kv| >= 1
  {
    Split(line, ':')
  }

  /** The line has at least one colon and its text before the first colon is `key`. */
  predicate HasKey(line: string, key: string)
  {
    var kv := Fields(line);
    |kv| >= 2 && kv[0] == key
  }

  /** The index of the last line that carries `key`, if any. */
  function LastKeyLine(lines: seq<string>, key: string): (r: Option<nat>)
    ensures r.Some? ==> r.value < |lines| && HasKey(lines[r.value], key)
    ensures r.Some? ==> forall j :: r.value < j < |lines| ==> !HasKey(lines[j], key)
    ensures r.None? <==> forall j :: 0 <= j < |lines| ==> !HasKey(lines[j], key)
  {
    if lines == [] then None
    else if HasKey(lines[|lines| - 1], key) then Some(|lines| - 1)
    else LastKeyLine(lines[..|lines| - 1], key)
  }

  /** The text after the line's last colon (the whole line if it has none). */
  function LastField(line: string): (f: string)
    ensures ':' !in f
  {
    var kv := Fields(line);
    kv[|kv| - 1]
  }

  /** The title is the text after the line's last colon, quotes removed, trimmed. */
  function TitleValue(line: string): (t: string)
  {
    TrimSpace(RemoveAll(LastField(line), '"'))
  }

  /** The subcategory is the text between the first and second colon, quotes removed, trimmed. */
  function SubCategoryValue(line: string): (t: string)
    requires |Fields(line)| >= 2
  {
    TrimSpace(RemoveAll(Fields(line)[1], '"'))
  }

  /** The start of the description: the text between the first and second colon, as is. */
  function DescriptionValue(line: string): (t: string)
    requires |Fields(line)| >= 2
  {
    Fields(line)[1]
  }

  /** The description's final form: the first `|-` anywhere removed, then trimmed. */
  function FinishDescription(raw: string): (d: string)
  {
    TrimSpace(RemoveFirst(raw, "|-"))
  }

  /** The title a list of lines sets, or `d` if no line carries the key. */
  function TitleOf(lines: seq<string>, d: string): string
  {
    match LastKeyLine(lines, KeyPageTitle)
    case Some(i) => TitleValue(lines[i])
    case None => d
  }

  /** The subcategory a list of lines sets, or `d`. */
  function SubCategoryOf(lines: seq<string>, d: string): string
  {
    match LastKeyLine(lines, KeySubCategory)
    case Some(i) => SubCategoryValue(lines[i])
    case None => d
  }

  /** The start of the description a list of lines sets, or `d`. */
  function DescriptionHeadOf(lines: seq<string>, d: string): string
  {
    match LastKeyLine(lines, KeyDescription)
    case Some(i) => DescriptionValue(lines[i])
    case None => d
  }

  /** The index of the last description line, -1 if there is none. */
  function DescriptionIndex(lines: seq<string>): int
  {
    match LastKeyLine(lines, KeyDescription)
    case Some(i) => i
    case None => -1
  }

  /** The description before its final clean-up: the start, followed by every
      later line, joined by single spaces. */
  function RawDescriptionOf(lines: seq<string>, d: string): string
  {
    match LastKeyLine(lines, KeyDescription)
    case Some(i) => DescriptionValue(lines[i]) + Join(lines[i + 1..], " ")
    case None => d
  }

  /** The three prelude fields of a resource. */
  datatype PreludeFields = PreludeFields(title: string, description: string, subCategory: string)

  /** What a prelude text makes of the fields `prev`: each field comes from the
      last line carrying its key, or stays as it was. */
  function ParsePrelude(text: string, prev: PreludeFields): (f: PreludeFields)
  {
    var lines := Split(text, '\n');
    PreludeFields(
      TitleOf(lines, prev.title),
      FinishDescription(RawDescriptionOf(lines, prev.description)),
      SubCategoryOf(lines, prev.subCategory))
  }

  lemma LastKeyLineSnoc(lines: seq<string>, i: nat, key: string)
    requires i < |lines|
    ensures LastKeyLine(lines[..i + 1], key) ==
              if HasKey(lines[i], key) then Some(i) else LastKeyLine(lines[..i], key)
  {
    assert lines[..i + 1][..i] == lines[..i];
  }

  /** What one more line does to the fields a prefix of the lines sets. */
  lemma ScanStep(lines: seq<string>, i: nat, prev: PreludeFields)
    requires i < |lines|
    ensures var line, pre := lines[i], lines[..i];
            && TitleOf(lines[..i + 1], prev.title) ==
                 (if HasKey(line, KeyPageTitle) then TitleValue(line) else TitleOf(pre, prev.title))
            && SubCategoryOf(lines[..i + 1], prev.subCategory) ==
                 (if HasKey(line, KeySubCategory) then SubCategoryValue(line) else SubCategoryOf(pre, prev.subCategory))
            && DescriptionHeadOf(lines[..i + 1], prev.description) ==
                 (if HasKey(line, KeyDescription) then DescriptionValue(line) else DescriptionHeadOf(pre, prev.description))
            && DescriptionIndex(lines[..i + 1]) ==
                 (if HasKey(line, KeyDescription) then i else DescriptionIndex(pre))
  {
    LastKeyLineSnoc(lines, i, KeyPageTitle);
    LastKeyLineSnoc(lines, i, KeySubCategory);
    LastKeyLineSnoc(lines, i, KeyDescription);
    assert lines[..i + 1][i] == lines[i];
  }

  /** The loop of `scrapePrelude` over the lines: a recognised key overwrites
      its field, other lines are skipped. Returns the fields and the index of the
      last description line. */
  method ScanPrelude(lines: seq<string>, prev: PreludeFields) returns (f: PreludeFields, descIndex: int)
    ensures f.title == TitleOf(lines, prev.title)
    ensures f.subCategory == SubCategoryOf(lines, prev.subCategory)
    ensures f.description == DescriptionHeadOf(lines, prev.description)
    ensures descIndex == DescriptionIndex(lines)
  {
    f, descIndex := prev, -1;
    for i := 0 to |lines|
      invariant f.title == TitleOf(lines[..i], prev.title)
      invariant f.subCategory == SubCategoryOf(lines[..i], prev.subCategory)
      invariant f.description == DescriptionHeadOf(lines[..i], prev.description)
      invariant descIndex == DescriptionIndex(lines[..i])
    {
      ScanStep(lines, i, prev);
      var kv := Fields(lines[i]);
      if |kv| < 2 {
        continue;
      }
      if kv[0] == KeyPageTitle {
        f := f.(title := TitleValue(lines[i]));
      } else if kv[0] == KeyDescription {
        f := f.(description := DescriptionValue(lines[i]));
        descIndex := i;
      } else if kv[0] == KeySubCategory {
        f := f.(subCategory := SubCategoryValue(lines[i]));
      }
    }
    assert lines[..|lines|] == lines;
  }

  /** The whole of the text handling in `scrapePrelude` for one prelude node. */
  method ScrapePreludeText(text: string, prev: PreludeFields) returns (f: PreludeFields)
    ensures f == ParsePrelude(text, prev)
  {
    var lines := Split(text, '\n');
    var descIndex;
    f, descIndex := ScanPrelude(lines, prev);
    var description := f.description;
    if descIndex > -1 {
      description := description + Join(lines[descIndex + 1..], " ");
    }
    assert description == RawDescriptionOf(lines, prev.description);
    f := f.(description := TrimSpace(RemoveFirst(description, "|-")));
    assert f.description == FinishDescription(RawDescriptionOf(lines, prev.description));
  }

  /** A title value never contains a colon or a quote, and is trimmed. */
  lemma TitleValueShape(line: string)
    ensures ':' !in TitleValue(line) && '"' !in TitleValue(line)
    ensures TrimSpace(TitleValue(line)) == TitleValue(line)
  {
    ValueShape(LastField(line), TitleValue(line));
  }

  /** A subcategory value never contains a colon or a quote, and is trimmed. */
  lemma SubCategoryValueShape(line: string)
    requires |Fields(line)| >= 2
    ensures ':' !in SubCategoryValue(line) && '"' !in SubCategoryValue(line)
    ensures TrimSpace(SubCategoryValue(line)) == SubCategoryValue(line)
  {
    ValueShape(Fields(line)[1], SubCategoryValue(line));
  }

  /** What a prelude text sets is clean: a title or subcategory it changes has
      no colon or quote and is trimmed, and the description is always trimmed. */
  lemma ParsedFieldsShape(text: string, prev: PreludeFields)
    ensures var f := ParsePrelude(text, prev);
            && (f.title != prev.title ==> ':' !in f.title && '"' !in f.title && TrimSpace(f.title) == f.title)
            && (f.subCategory != prev.subCategory ==>
                  ':' !in f.subCategory && '"' !in f.subCategory && TrimSpace(f.subCategory) == f.subCategory)
            && TrimSpace(f.description) == f.description
  {
    var lines := Split(text, '\n');
    var t := LastKeyLine(lines, KeyPageTitle);
    if t.Some? {
      TitleValueShape(lines[t.value]);
    }
    var c := LastKeyLine(lines, KeySubCategory);
    if c.Some? {
      SubCategoryValueShape(lines[c.value]);
    }
    TrimSpaceIdempotent(RemoveFirst(RawDescriptionOf(lines, prev.description), "|-"));
  }

  /** A field with its quotes removed and trimmed keeps no colon or quote. */
  lemma ValueShape(field: string, v: string)
    requires ':' !in field && v == TrimSpace(RemoveAll(field, '"'))
    ensures ':' !in v && '"' !in v && TrimSpace(v) == v
  {
    var r := RemoveAll(field, '"');
    RemoveAllKeepsOut(field, '"', ':');
    TrimmedFree(r);
    TrimSpaceIdempotent(r);
  }

  /** Trimming keeps characters out that were out before. */
  lemma TrimmedFree(s: string)
    ensures forall c :: c !in s ==> c !in TrimSpace(s)
  {
    var i, j := TrimSpaceSpec(s);
  }

  /** A line with a recognised key appended to a prelude decides that field. */
  lemma {:induction false} LaterLineWins(lines: seq<string>, line: string, key: string)
    requires HasKey(line, key)
    ensures LastKeyLine(lines + [line], key) == Some(|lines|)
  {
  }

  /** The title is taken from the part after the last colon, whatever comes
      before it: `page_title: "AWS: aws_vpc"` gives `aws_vpc`, not `AWS: aws_vpc`. */
  lemma TitleAfterLastColon(before: string, after: string)
    requires ':' !in after
    ensures LastField(before + [':'] + after) == after
  {
    LastPartAfterSep(before, after, ':');
  }

  /** The `|-` marker is removed wherever it first occurs, not only at the start. */
  lemma MarkerRemovedAnywhere()
    ensures FinishDescription("a |- b") == "a  b"
  {
    ExampleMarkerFound();
    var s := "a |- b";
    assert s[..2] + s[4..] == "a  b";
    assert !IsSpace('a') && !IsSpace('b');
  }

  lemma ExampleMarkerFound()
    ensures IndexOf("a |- b", "|-") == Some(2)
  {
    var s := "a |- b";
    assert s[2..4] == "|-" by { assert s[2] == '|' && s[3] == '-'; }
    assert OccursAt(s, "|-", 2);
    assert s[0] != '|' && s[1] != '|';
    assert !OccursAt(s, "|-", 0);
    assert !OccursAt(s, "|-", 1);
  }
}
