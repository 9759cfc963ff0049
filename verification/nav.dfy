/** The VitePress sidebar values the indexer produces. */
module Nav {
  import opened Wrappers

  /** A link in the sidebar: `{ text, link }`. */
  datatype Item = Item(text: string, link: string)

  /** The `collapsed` and `collapsible` flags of a post category group. */
  datatype Folding = Folding(collapsed: bool, collapsible: bool)

  /** A sidebar group: `{ text, items }`, with the folding flags when it has them. */
  datatype Group = Group(text: string, folding: Option<Folding>, items: seq<Item>)

  /** The texts of a list of groups, in order. */
  function Texts(gs: seq<Group>): (r: seq<string>)
    ensures |r| == |gs|
  {
    seq(|gs|, i requires 0 <= i < |gs| => gs[i].text)
  }
}
