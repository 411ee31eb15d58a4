/** The parts of an HCL syntax tree the scraper looks at. Parsing itself
    (`hclparse`) is not modelled: a snippet arrives already parsed, or as a
    parse failure. */
module Hcl {

  /** One step of a traversal such as `aws_vpc.main.id`. */
  datatype Traverser =
    | TraverseRoot(name: string)
    | TraverseAttr(name: string)
    | TraverseIndex
    | TraverseSplat

  /** An attribute's value expression: a scope traversal, with the byte range
      it spans in the snippet text, or any other kind of expression. */
  datatype Expr =
    | ScopeTraversal(start: nat, end: nat, steps: seq<Traverser>)
    | OtherExpr

  datatype Attribute = Attribute(name: string, expr: Expr)

  /** A block `kind "typeLabel" "nameLabel" { attrs }`, for example
      `resource "aws_vpc" "main" { ... }`. */
  datatype Block = Block(kind: string, typeLabel: string, nameLabel: string, attrs: seq<Attribute>)

  /** A parsed snippet: its text and its top-level blocks, in order. */
  datatype File = File(bytes: string, blocks: seq<Block>)

  const BlockResource: string := "resource"

  /** The dependency key `type.name` of a block. */
  function DepKey(b: Block): string
  {
    b.typeLabel + "." + b.nameLabel
  }

  /** HCL keeps a body's attributes in a map, so their names are distinct. */
  predicate DistinctNames(attrs: seq<Attribute>)
  {
    forall i, j :: 0 <= i < j < |attrs| ==> attrs[i].name != attrs[j].name
  }

  /** Every traversal range among the attributes lies inside the snippet text. */
  predicate RangesWithin(bytes: string, attrs: seq<Attribute>)
  {
    forall i :: 0 <= i < |attrs| && attrs[i].expr.ScopeTraversal? ==> attrs[i].expr.start <= attrs[i].expr.end <= |bytes|
  }

  /** What the parser guarantees of every block it returns. */
  predicate WellFormedBlock(bytes: string, b: Block)
  {
    DistinctNames(b.attrs) && RangesWithin(bytes, b.attrs)
  }

  predicate WellFormed(f: File)
  {
    forall b :: b in f.blocks ==> WellFormedBlock(f.bytes, b)
  }

  /** The `resource` blocks of a list, in their order. */
  function ResourceBlocks(blocks: seq<Block>): (r: seq<Block>)
    ensures forall b :: b in r <==> b in blocks && b.kind == BlockResource
    ensures |r| <= |blocks|
  {
    if blocks == [] then []
    else
      var rest := ResourceBlocks(blocks[..|blocks| - 1]);
      var b := blocks[|blocks| - 1];
      assert blocks == blocks[..|blocks| - 1] + [b];
      if b.kind == BlockResource then rest + [b] else rest
  }

  /** Filtering is stable: filtering a concatenation filters each part. */
  lemma {:induction false} ResourceBlocksAppend(xs: seq<Block>, ys: seq<Block>)
    ensures ResourceBlocks(xs + ys) == ResourceBlocks(xs) + ResourceBlocks(ys)
  {
    if ys != [] {
      var zs := xs + ys;
      assert zs[..|zs| - 1] == xs + ys[..|ys| - 1];
      ResourceBlocksAppend(xs, ys[..|ys| - 1]);
    } else {
      assert xs + ys == xs;
    }
  }
}
