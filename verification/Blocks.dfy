/** The structural units of a Markdown document (internal/history/differ.go). */
module Blocks {

  datatype BlockKind = Frontmatter | Heading | Paragraph | CodeFence | ListItem

  datatype Block = Block(kind: BlockKind, level: nat, raw: string, section: string, lang: string)

  /** Blocks are compared by their source text alone. */
  function Texts(bs: seq<Block>): (ts: seq<string>)
    ensures |ts| == |bs|
    ensures forall i :: 0 <= i < |bs| ==> ts[i] == bs[i].raw
  {
    seq(|bs|, i requires 0 <= i < |bs| => bs[i].raw)
  }
}
