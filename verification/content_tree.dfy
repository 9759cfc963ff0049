/**
 * The part of the filesystem the indexer reads, as a value: a directory is
 * the sequence of its entries in the order `readdirSync` lists them, and a
 * file carries its name and its UTF-8-decoded contents.
 */
module ContentTree {

  datatype Node = File(name: string, content: string) | Dir(name: string, children: seq<Node>)

  /**
   * The folder path of a sub-directory, relative to the walked root:
   * `base ? `${base}/${name}` : name` (docs/.vitepress/config.js, lines 33 and 228).
   */
  function SubPath(base: string, name: string): (r: string)
    ensures base == "" ==> r == name
    ensures base != "" ==> |r| == |base| + 1 + |name| && r[..|base|] == base && r[|base|] == '/' && r[|base| + 1..] == name
  {
    if base == "" then name else base + "/" + name
  }

  /** A file together with the folder path it sits in. */
  datatype FileRef = FileRef(folder: string, name: string, content: string)

  /** Every file below `nodes`, depth first, in listing order; directories are always entered. */
  function Files(nodes: seq<Node>, base: string): seq<FileRef>
    decreases nodes
  {
    if |nodes| == 0 then []
    else FilesOf(nodes[0], base) + Files(nodes[1..], base)
  }

  function FilesOf(n: Node, base: string): seq<FileRef>
    decreases n
  {
    match n
    case File(name, content) => [FileRef(base, name, content)]
    case Dir(name, children) => Files(children, SubPath(base, name))
  }
}
