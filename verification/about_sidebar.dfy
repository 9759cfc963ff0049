/**
 * The sidebar of the about section (docs/.vitepress/config.js, lines
 * 159-211): a fixed home group, then one group for every sub-directory of
 * `docs/about` that holds an `index.md` file, in listing order.
 */
module AboutSidebar {
  import opened Wrappers
  import opened Nav
  import opened ContentTree
  import UriComponent

  const AboutPrefix := "/about/"
  const IndexFile := "index.md"

  /** The "关于" group linking to the about home page; the whole sidebar when `docs/about` is missing. */
  const Home := Group("关于", None, [Item("关于我", AboutPrefix)])

  /** The entry called `name` in a listing, if any (the first, should names repeat). */
  function Child(nodes: seq<Node>, name: string): (r: Option<Node>)
    ensures r.Some? ==> r.value in nodes && r.value.name == name
    ensures r.None? ==> forall i :: 0 <= i < |nodes| ==> nodes[i].name != name
  {
    if |nodes| == 0 then None
    else if nodes[0].name == name then Some(nodes[0])
    else Child(nodes[1..], name)
  }

  /** `statSync(join(itemPath, 'index.md')).isFile()` for a directory entry. */
  predicate HasIndex(n: Node) {
    n.Dir? && match Child(n.children, IndexFile) case Some(c) => c.File? case None => false
  }

  /** `/about/${encodeURIComponent(item)}/`. */
  function PageLink(name: string): string {
    AboutPrefix + UriComponent.Encode(name) + "/"
  }

  /** The group of an about sub-page: its directory name, linking to its page. */
  function PageGroup(name: string): Group {
    Group(name, None, [Item(name, PageLink(name))])
  }

  /** The groups of the sub-pages in listing `items`, in order. */
  function Pages(items: seq<Node>): (r: seq<Group>)
    ensures |r| <= |items|
    ensures forall g :: g in r <==> exists i :: 0 <= i < |items| && HasIndex(items[i]) && g == PageGroup(items[i].name)
  {
    if |items| == 0 then []
    else
      var rest := Pages(items[1..]);
      assert forall i :: 0 < i < |items| ==> items[i] == items[1..][i - 1];
      (if HasIndex(items[0]) then [PageGroup(items[0].name)] else []) + rest
  }

  /**
   * The listing positions of the sub-directories that hold an `index.md`
   * file: all of them, each once, in increasing order.
   */
  function PageIndices(items: seq<Node>): (pos: seq<nat>)
    ensures forall k :: 0 <= k < |pos| ==> pos[k] < |items| && HasIndex(items[pos[k]])
    ensures forall j, k :: 0 <= j < k < |pos| ==> pos[j] < pos[k]
    ensures forall i :: 0 <= i < |items| && HasIndex(items[i]) ==> i in pos
  {
    if |items| == 0 then []
    else
      var n := |items| - 1;
      var front := PageIndices(items[..n]);
      assert forall k :: 0 <= k < |front| ==> items[front[k]] == items[..n][front[k]];
      front + (if HasIndex(items[n]) then [n] else [])
  }

  /** The groups of two listings one after the other are the groups of each, one after the other. */
  lemma {:induction false} PagesAppend(a: seq<Node>, b: seq<Node>)
    ensures Pages(a + b) == Pages(a) + Pages(b)
  {
    if |a| > 0 {
      PagesAppend(a[1..], b);
      assert (a + b)[0] == a[0];
      assert (a + b)[1..] == a[1..] + b;
    } else {
      assert a + b == b;
    }
  }

  /**
   * One page group per sub-directory with an `index.md` file, in listing
   * order: the k-th group is the group of the k-th such directory.
   */
  lemma {:induction false} PagesInListingOrder(items: seq<Node>)
    ensures var pos := PageIndices(items);
            && |Pages(items)| == |pos|
            && forall k :: 0 <= k < |pos| ==> Pages(items)[k] == PageGroup(items[pos[k]].name)
  {
    if |items| > 0 {
      var n := |items| - 1;
      var front := items[..n];
      PagesInListingOrder(front);
      assert items == front + [items[n]];
      PagesAppend(front, [items[n]]);
      var fpos := PageIndices(front);
      forall k | 0 <= k < |fpos| ensures items[fpos[k]] == front[fpos[k]] {
      }
    }
  }

  /** `generateAboutSidebar`, given the listing of `docs/about` or `None` when it cannot be read. */
  function Sidebar(about: Option<seq<Node>>): (r: seq<Group>)
    ensures |r| >= 1 && r[0] == Home
    ensures about.None? ==> r == [Home]
    ensures about.Some? ==> r[1..] == Pages(about.value)
  {
    match about
    case None => [Home]
    case Some(items) => [Home] + Pages(items)
  }

  /**
   * Every sub-page group after the home group links to a page whose path
   * segment decodes back to exactly the directory name shown as its text.
   */
  lemma PageLinkDecodes(name: string)
    ensures var l := PageLink(name);
            && l[..|AboutPrefix|] == AboutPrefix
            && l[|l| - 1] == '/'
            && UriComponent.Decode(l[|AboutPrefix|..|l| - 1]) == Some(name)
            && '/' !in l[|AboutPrefix|..|l| - 1]
  {
    var e := UriComponent.Encode(name);
    assert PageLink(name)[|AboutPrefix|..|PageLink(name)| - 1] == e;
    UriComponent.DecodeEncode(name);
  }
}
