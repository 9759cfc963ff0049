/**
 * The walk over the posts directory (docs/.vitepress/config.js, lines 23-100)
 * and the second walk that lists every post's link (lines 219-240): which
 * files become posts, the defaults and precedence of each field, and the
 * link each post gets.
 */
module PostIndex {
  import opened Wrappers
  import Text
  import UriComponent
  import FrontMatter
  import opened ContentTree

  /** Category of a post directly under the root without a `category` field. */
  const DefaultCategory := "文章列表"
  const PostsPrefix := "/posts/"
  const DefaultOrder := 999

  /** One indexed file, with the fields `readFilesRecursive` records. */
  datatype Post = Post(
    title: string,
    link: string,
    category: string,
    date: string,
    order: int,
    filename: string,
    filePath: string)

  /** `item.endsWith('.md') && item !== 'index.md'`. */
  predicate IsPost(name: string) {
    Text.EndsWith(name, ".md") && name != "index.md"
  }

  /** `.replace('.md', '')`: removes the FIRST `.md`, wherever it is. */
  function StripMd(s: string): string {
    Text.ReplaceFirst(s, ".md", "")
  }

  /** The path relative to the posts root, with every backslash turned into `/`. */
  function RelativePath(base: string, name: string): string {
    Text.ReplaceChar(SubPath(base, name), '\\', '/')
  }

  /** `/posts/` followed by the path, each `/`-separated segment URI-encoded. */
  function LinkOf(path: string): string {
    PostsPrefix + UriComponent.EncodePath(path)
  }

  /**
   * The post built for file `name` with contents `content` in folder `base`:
   * front-matter values where present, defaults otherwise; the folder path
   * always wins over a front-matter `category`.
   */
  function MakePost(base: string, name: string, content: string): (p: Post)
    ensures p.filename == name
    ensures p.filePath == StripMd(RelativePath(base, name))
    ensures p.link == LinkOf(p.filePath)
    ensures p.order != 0
  {
    var fields := FrontMatter.Extract(content);
    var filePath := StripMd(RelativePath(base, name));
    Post(
      title := fields.title.GetOr(StripMd(name)),
      link := LinkOf(filePath),
      category := if base != "" then base else fields.category.GetOr(DefaultCategory),
      date := fields.date.GetOr(""),
      order := fields.order.GetOr(DefaultOrder),
      filename := name,
      filePath := filePath)
  }

  /** `readFilesRecursive`: the posts below `nodes`, depth first, in listing order. */
  function Walk(nodes: seq<Node>, base: string): (r: seq<Post>)
    decreases nodes
    ensures forall i :: 0 <= i < |r| ==> IsPost(r[i].filename)
  {
    if |nodes| == 0 then []
    else Visit(nodes[0], base) + Walk(nodes[1..], base)
  }

  function Visit(n: Node, base: string): (r: seq<Post>)
    decreases n
    ensures forall i :: 0 <= i < |r| ==> IsPost(r[i].filename)
  {
    match n
    case Dir(name, children) => Walk(children, SubPath(base, name))
    case File(name, content) => if IsPost(name) then [MakePost(base, name, content)] else []
  }

  /** The files of a listing that are posts, in order. */
  function SelectPosts(refs: seq<FileRef>): (r: seq<FileRef>)
    ensures forall x :: x in r <==> x in refs && IsPost(x.name)
  {
    if |refs| == 0 then []
    else (if IsPost(refs[0].name) then [refs[0]] else []) + SelectPosts(refs[1..])
  }

  function MakePosts(refs: seq<FileRef>): (r: seq<Post>)
    ensures |r| == |refs|
  {
    seq(|refs|, i requires 0 <= i < |refs| => MakePost(refs[i].folder, refs[i].name, refs[i].content))
  }

  lemma {:induction false} SelectPostsAppend(a: seq<FileRef>, b: seq<FileRef>)
    ensures SelectPosts(a + b) == SelectPosts(a) + SelectPosts(b)
  {
    if |a| > 0 {
      assert (a + b)[1..] == a[1..] + b;
      SelectPostsAppend(a[1..], b);
    } else {
      assert a + b == b;
    }
  }

  lemma MakePostsAppend(a: seq<FileRef>, b: seq<FileRef>)
    ensures MakePosts(a + b) == MakePosts(a) + MakePosts(b)
  {
    var l := MakePosts(a + b);
    var r := MakePosts(a) + MakePosts(b);
    forall i | 0 <= i < |l| ensures l[i] == r[i] {
      if i < |a| {
        assert (a + b)[i] == a[i];
      } else {
        assert (a + b)[i] == b[i - |a|];
      }
    }
  }

  /**
   * The walk indexes exactly the files, at any depth, whose name ends in
   * `.md` and is not `index.md`, in depth-first listing order.
   */
  lemma {:induction false} WalkSelectsPosts(nodes: seq<Node>, base: string)
    decreases nodes
    ensures Walk(nodes, base) == MakePosts(SelectPosts(Files(nodes, base)))
  {
    if |nodes| > 0 {
      VisitSelectsPosts(nodes[0], base);
      WalkSelectsPosts(nodes[1..], base);
      SelectPostsAppend(FilesOf(nodes[0], base), Files(nodes[1..], base));
      MakePostsAppend(SelectPosts(FilesOf(nodes[0], base)), SelectPosts(Files(nodes[1..], base)));
    }
  }

  lemma {:induction false} VisitSelectsPosts(n: Node, base: string)
    decreases n
    ensures Visit(n, base) == MakePosts(SelectPosts(FilesOf(n, base)))
  {
    match n
    case Dir(name, children) => WalkSelectsPosts(children, SubPath(base, name));
    case File(name, content) =>
  }

  /** A file is indexed iff it is a post; every post file yields one entry. */
  lemma IndexedIffPost(nodes: seq<Node>, base: string, f: FileRef)
    requires f in Files(nodes, base)
    ensures IsPost(f.name) <==> MakePost(f.folder, f.name, f.content) in Walk(nodes, base)
  {
    WalkSelectsPosts(nodes, base);
    var sel := SelectPosts(Files(nodes, base));
    if IsPost(f.name) {
      var i :| 0 <= i < |sel| && sel[i] == f;
      assert MakePosts(sel)[i] == MakePost(f.folder, f.name, f.content);
    }
  }

  /** A post with no front-matter block gets the default of every field. */
  lemma NoFrontMatterDefaults(base: string, name: string, content: string)
    requires FrontMatter.Block(content).None?
    ensures var p := MakePost(base, name, content);
            && p.title == StripMd(name)
            && p.date == ""
            && p.order == DefaultOrder
            && p.category == (if base == "" then DefaultCategory else base)
  {
  }

  /**
   * A post inside a folder is in that folder's category whatever its
   * front-matter says; a post at the root takes its front-matter category
   * if there is one and the default category otherwise.
   */
  lemma CategoryPrecedence(base: string, name: string, content: string)
    ensures base != "" ==> MakePost(base, name, content).category == base
    ensures base == "" ==>
      MakePost(base, name, content).category ==
        match FrontMatter.Block(content)
        case None => DefaultCategory
        case Some(b) =>
          match FrontMatter.Match(b, "category")
          case None => DefaultCategory
          case Some(v) => FrontMatter.Clean(v)
  {
  }

  /**
   * Each key present in the block gives its field the cleaned first match
   * (title, date) or the parsed order; a missing key leaves the default.
   */
  lemma FieldsFromFirstMatch(base: string, name: string, content: string, b: string)
    requires FrontMatter.Block(content) == Some(b)
    ensures var p := MakePost(base, name, content);
            && p.title == (match FrontMatter.Match(b, "title")
                           case None => StripMd(name)
                           case Some(v) => FrontMatter.Clean(v))
            && p.date == (match FrontMatter.Match(b, "date")
                          case None => ""
                          case Some(v) => FrontMatter.Clean(v))
            && p.order == (match FrontMatter.Match(b, "order")
                           case None => DefaultOrder
                           case Some(v) => FrontMatter.OrderValue(v))
  {
  }

  /** The link of `item` in folder `base` as `getAllPostPaths` builds it. */
  function PathLink(base: string, name: string): string {
    LinkOf(SubPath(base, StripMd(name)))
  }

  /** `getAllPostPaths`: the link of every post below `nodes`, in walk order. */
  function PostPaths(nodes: seq<Node>, base: string): seq<string>
    decreases nodes
  {
    if |nodes| == 0 then []
    else VisitPaths(nodes[0], base) + PostPaths(nodes[1..], base)
  }

  function VisitPaths(n: Node, base: string): seq<string>
    decreases n
  {
    match n
    case Dir(name, children) => PostPaths(children, SubPath(base, name))
    case File(name, content) => if IsPost(name) then [PathLink(base, name)] else []
  }

  /**
   * Whatever the names, the second walk lists one link per walked post: both
   * walks select the same files, even where their links differ.
   */
  lemma {:induction false} PostPathsCount(nodes: seq<Node>, base: string)
    decreases nodes
    ensures |PostPaths(nodes, base)| == |Walk(nodes, base)|
  {
    if |nodes| > 0 {
      VisitPathsCount(nodes[0], base);
      PostPathsCount(nodes[1..], base);
    }
  }

  lemma {:induction false} VisitPathsCount(n: Node, base: string)
    decreases n
    ensures |VisitPaths(n, base)| == |Visit(n, base)|
  {
    match n
    case Dir(name, children) => PostPathsCount(children, SubPath(base, name));
    case File(_, _) =>
  }

  function Links(posts: seq<Post>): (r: seq<string>)
    ensures |r| == |posts|
  {
    seq(|posts|, i requires 0 <= i < |posts| => posts[i].link)
  }

  /** No name contains a backslash and no directory name contains `.md`, at any depth. */
  predicate NamesClean(nodes: seq<Node>)
    decreases nodes
  {
    forall i :: 0 <= i < |nodes| ==> NodeClean(nodes[i])
  }

  predicate NodeClean(n: Node)
    decreases n
  {
    && '\\' !in n.name
    && match n
       case File(_, _) => true
       case Dir(name, children) => !Text.Contains(name, ".md") && NamesClean(children)
  }

  predicate FolderClean(base: string) {
    '\\' !in base && !Text.Contains(base, ".md")
  }

  lemma SubPathClean(base: string, name: string)
    requires FolderClean(base) && '\\' !in name && !Text.Contains(name, ".md")
    ensures FolderClean(SubPath(base, name))
  {
    if base != "" {
      Text.IndexOfAfterSeparator(base, '/', name, ".md");
    }
  }

  /** In a clean folder, both walks compute the same link for a post. */
  lemma LinkAgrees(base: string, name: string)
    requires FolderClean(base) && '\\' !in name
    ensures LinkOf(StripMd(RelativePath(base, name))) == PathLink(base, name)
  {
    assert '\\' !in SubPath(base, name);
    if base != "" {
      Text.ReplaceFirstAfterSeparator(base, '/', name, ".md", "");
    }
  }

  /**
   * When no name holds a backslash and no folder name holds `.md`, the links
   * `getAllPostPaths` lists are exactly the links of the walked posts.
   */
  lemma {:induction false} PostPathsAgree(nodes: seq<Node>, base: string)
    requires NamesClean(nodes) && FolderClean(base)
    decreases nodes
    ensures PostPaths(nodes, base) == Links(Walk(nodes, base))
  {
    if |nodes| > 0 {
      VisitPathsAgree(nodes[0], base);
      PostPathsAgree(nodes[1..], base);
      LinksAppend(Visit(nodes[0], base), Walk(nodes[1..], base));
    }
  }

  lemma LinksAppend(a: seq<Post>, b: seq<Post>)
    ensures Links(a + b) == Links(a) + Links(b)
  {
    assert forall i :: 0 <= i < |b| ==> (a + b)[|a| + i] == b[i];
  }

  lemma {:induction false} VisitPathsAgree(n: Node, base: string)
    requires NodeClean(n) && FolderClean(base)
    decreases n
    ensures VisitPaths(n, base) == Links(Visit(n, base))
  {
    match n
    case Dir(name, children) =>
      SubPathClean(base, name);
      PostPathsAgree(children, SubPath(base, name));
    case File(name, content) =>
      if IsPost(name) {
        LinkAgrees(base, name);
      }
  }

  /**
   * Without the clean-names condition the walks can disagree: in a folder
   * named `a.md`, the post `b.md` gets the link `/posts/a/b.md`, because the
   * first `.md` of the whole relative path is removed, while the listed path
   * is `/posts/a.md/b`.
   */
  lemma MdFolderLinksDisagree()
    ensures var root := [Dir("a.md", [File("b.md", "")])];
            && |Walk(root, "")| == 1
            && Walk(root, "")[0].link == PostsPrefix + "a/b.md"
            && PostPaths(root, "") == [PostsPrefix + "a.md/b"]
  {
    MdFolderWalk();
    MdFolderPostLink("a.md", "b.md");
    MdFolderPaths();
  }

  lemma MdFolderWalk()
    ensures Walk([Dir("a.md", [File("b.md", "")])], "") == [MakePost("a.md", "b.md", "")]
  {
    assert IsPost("b.md");
  }

  lemma MdFolderPostLink(folder: string, name: string)
    requires folder == "a.md" && name == "b.md"
    ensures LinkOf(StripMd(RelativePath(folder, name))) == PostsPrefix + "a/b.md"
  {
    assert StripMd(RelativePath(folder, name)) == "a/b.md" by {
      MdFolderRelative();
      MdFolderStrip();
    }
    MdFolderLink("a/b.md");
  }

  /** The two links of the example are written with unreserved characters only. */
  lemma MdFolderLink(path: string)
    requires path == "a/b.md" || path == "a.md/b"
    ensures LinkOf(path) == PostsPrefix + path
  {
    assert forall i :: 0 <= i < |path| ==> UriComponent.IsUnreserved(path[i]) || path[i] == '/' by {
      if path == "a/b.md" {
        assert path == ['a', '/', 'b', '.', 'm', 'd'];
      } else {
        assert path == ['a', '.', 'm', 'd', '/', 'b'];
      }
    }
    UnreservedLink(path);
  }

  /** A path of unreserved characters and slashes appears in its link as it is. */
  lemma UnreservedLink(path: string)
    requires forall i :: 0 <= i < |path| ==> UriComponent.IsUnreserved(path[i]) || path[i] == '/'
    ensures LinkOf(path) == PostsPrefix + path
  {
    UriComponent.EncodePathUnreserved(path);
  }

  lemma MdFolderRelative()
    ensures RelativePath("a.md", "b.md") == "a.md/b.md"
  {
    var p := SubPath("a.md", "b.md");
    assert p == ['a', '.', 'm', 'd', '/', 'b', '.', 'm', 'd'];
    assert '\\' !in p;
  }

  lemma MdFolderStrip()
    ensures StripMd("a.md/b.md") == "a/b.md"
  {
    assert "a.md/b.md"[1..4] == ".md";
    assert "a.md/b.md"[0..3][0] == 'a';
    Text.ReplaceFirstLeftmost("a.md/b.md", ".md", "", 1);
  }

  lemma MdFolderPaths()
    ensures PostPaths([Dir("a.md", [File("b.md", "")])], "") == [PostsPrefix + "a.md/b"]
  {
    assert PostPaths([Dir("a.md", [File("b.md", "")])], "") == [PathLink("a.md", "b.md")] by {
      MdFolderVisitPaths("a.md", "b.md");
    }
    assert PathLink("a.md", "b.md") == PostsPrefix + "a.md/b" by {
      MdFileStrip();
      MdFolderLink("a.md/b");
    }
  }

  lemma MdFolderVisitPaths(folder: string, name: string)
    requires folder == "a.md" && name == "b.md"
    ensures PostPaths([Dir(folder, [File(name, "")])], "") == [PathLink(folder, name)]
  {
    var f := File(name, "");
    var d := Dir(folder, [f]);
    assert IsPost(name);
    assert VisitPaths(f, folder) == [PathLink(folder, name)];
    assert PostPaths([f], folder) == VisitPaths(f, folder) + PostPaths([], folder);
    assert SubPath("", folder) == folder;
    assert VisitPaths(d, "") == PostPaths([f], folder);
    assert PostPaths([d], "") == VisitPaths(d, "") + PostPaths([], "");
  }

  lemma MdFileStrip()
    ensures SubPath("a.md", StripMd("b.md")) == "a.md/b"
  {
    assert "b.md"[1..4] == ".md";
    assert "b.md"[0..3][0] == 'b';
    Text.ReplaceFirstLeftmost("b.md", ".md", "", 1);
  }
}
