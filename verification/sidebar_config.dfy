/**
 * `generateSidebarConfig` (docs/.vitepress/config.js, lines 214-271): the
 * route map the site's `sidebar` option receives. Every posts route shows
 * the category sidebar and every about route the about sidebar.
 */
module SidebarConfig {
  import opened Wrappers
  import opened Nav
  import opened ContentTree
  import opened PostIndex
  import PostOrder
  import Grouping
  import AboutSidebar
  import UriComponent

  /** The two directories the indexer lists; `None` when a directory cannot be read. */
  datatype Site = Site(posts: Option<seq<Node>>, about: Option<seq<Node>>)

  /** Listing `docs/posts` throws, and the exception leaves the configuration unbuilt. */
  datatype IndexError = PostsDirectoryMissing

  /** A route prefix and the sidebar shown under it. */
  type Config = map<string, seq<Group>>

  /** `generateSidebar`: the walked posts, sorted, grouped by category. */
  function PostsSidebar(root: seq<Node>, loc: PostOrder.Locale): (r: seq<Group>)
    ensures forall c :: c in Texts(r) <==> c in Grouping.Categories(Walk(root, ""))
  {
    var posts := Walk(root, "");
    var sorted := PostOrder.Sort(posts, loc);
    Grouping.GroupsCategories(sorted);
    Grouping.CategoriesOfPermutation(posts, sorted);
    Grouping.Groups(sorted)
  }

  /** `allPaths.forEach(path => sidebarConfig[path] = sidebar)`. */
  function RoutePosts(paths: seq<string>, c: Config, sidebar: seq<Group>): (r: Config)
    ensures r.Keys == c.Keys + set i | 0 <= i < |paths| :: paths[i]
    ensures forall k :: k in r && k !in paths ==> r[k] == c[k]
    ensures forall i :: 0 <= i < |paths| ==> r[paths[i]] == sidebar
  {
    if |paths| == 0 then c
    else
      var r := RoutePosts(paths[1..], c[paths[0] := sidebar], sidebar);
      assert forall i :: 0 < i < |paths| ==> paths[i] == paths[1..][i - 1];
      r
  }

  /** The two routes of an about sub-directory: `/about/<encoded>/` and `/about/<encoded>`. */
  function AboutKeys(name: string): set<string> {
    var e := UriComponent.Encode(name);
    {AboutSidebar.AboutPrefix + e + "/", AboutSidebar.AboutPrefix + e}
  }

  /** The routes of every sub-directory of `docs/about`, index page or not. */
  function AllAboutKeys(items: seq<Node>): set<string> {
    set i, k | 0 <= i < |items| && items[i].Dir? && k in AboutKeys(items[i].name) :: k
  }

  lemma AllAboutKeysCons(items: seq<Node>)
    requires |items| > 0
    ensures AllAboutKeys(items) ==
              (if items[0].Dir? then AboutKeys(items[0].name) else {}) + AllAboutKeys(items[1..])
  {
    var n := items[0];
    forall k | k in AllAboutKeys(items)
      ensures k in (if n.Dir? then AboutKeys(n.name) else {}) + AllAboutKeys(items[1..])
    {
      var i :| 0 <= i < |items| && items[i].Dir? && k in AboutKeys(items[i].name);
      if i > 0 {
        assert items[1..][i - 1] == items[i];
      }
    }
    forall k | k in AllAboutKeys(items[1..]) ensures k in AllAboutKeys(items) {
      var i :| 0 <= i < |items[1..]| && items[1..][i].Dir? && k in AboutKeys(items[1..][i].name);
      assert items[i + 1] == items[1..][i];
    }
  }

  /** The `forEach` over `docs/about`: both routes of every sub-directory. */
  function RouteAbout(items: seq<Node>, c: Config, about: seq<Group>): (r: Config)
    ensures r.Keys == c.Keys + AllAboutKeys(items)
    ensures forall k :: k in r && k !in AllAboutKeys(items) ==> r[k] == c[k]
    ensures forall k :: k in AllAboutKeys(items) ==> r[k] == about
  {
    if |items| == 0 then c
    else
      var n := items[0];
      var c' := if n.Dir? then
                  var e := UriComponent.Encode(n.name);
                  c[AboutSidebar.AboutPrefix + e + "/" := about][AboutSidebar.AboutPrefix + e := about]
                else c;
      AllAboutKeysCons(items);
      RouteAbout(items[1..], c', about)
  }

  /** A route of the posts section: its second character is the `p` of `/posts`. */
  predicate UnderPosts(k: string) {
    |k| > 1 && k[1] == 'p'
  }

  /** The posts routes: `/posts/`, `/posts` and every post link, each showing `sidebar`. */
  function PostsRoutes(paths: seq<string>, sidebar: seq<Group>): Config {
    RoutePosts(paths, map["/posts/" := sidebar]["/posts" := sidebar], sidebar)
  }

  /** The about routes added over `c`: `/about/`, `/about`, then the sub-directory routes. */
  function AboutRoutes(c: Config, listing: Option<seq<Node>>, about: seq<Group>): Config {
    var c := c["/about/" := about]["/about" := about];
    match listing
    case None => c
    case Some(items) => RouteAbout(items, c, about)
  }

  /** `generateSidebarConfig`: the route map, or the error that stops it. */
  function Build(site: Site, loc: PostOrder.Locale): (r: Result<Config, IndexError>)
    ensures r.Failure? <==> site.posts.None?
  {
    match site.posts
    case None => Failure(PostsDirectoryMissing)
    case Some(root) =>
      var sidebar := PostsSidebar(root, loc);
      var about := AboutSidebar.Sidebar(site.about);
      Success(AboutRoutes(PostsRoutes(PostPaths(root, ""), sidebar), site.about, about))
  }

  /** Every link `getAllPostPaths` lists begins with `/posts/`. */
  lemma {:induction false} PostPathsArePosts(nodes: seq<Node>, base: string)
    decreases nodes
    ensures forall i :: 0 <= i < |PostPaths(nodes, base)| ==>
              |PostPaths(nodes, base)[i]| >= |PostsPrefix| && PostPaths(nodes, base)[i][..|PostsPrefix|] == PostsPrefix
  {
    if |nodes| > 0 {
      VisitPathsArePosts(nodes[0], base);
      PostPathsArePosts(nodes[1..], base);
    }
  }

  lemma {:induction false} VisitPathsArePosts(n: Node, base: string)
    decreases n
    ensures forall i :: 0 <= i < |VisitPaths(n, base)| ==>
              |VisitPaths(n, base)[i]| >= |PostsPrefix| && VisitPaths(n, base)[i][..|PostsPrefix|] == PostsPrefix
  {
    match n
    case Dir(name, children) => PostPathsArePosts(children, SubPath(base, name));
    case File(name, content) =>
  }

  /** No about route begins with `/posts`, so the about routes never replace a posts route. */
  lemma AboutKeysAreAbout(items: seq<Node>, k: string)
    requires k in AllAboutKeys(items)
    ensures |k| >= |AboutSidebar.AboutPrefix| && k[..|AboutSidebar.AboutPrefix|] == AboutSidebar.AboutPrefix
  {
  }

  lemma PostsRoutesSpec(root: seq<Node>, sidebar: seq<Group>)
    ensures var paths := PostPaths(root, "");
            var c := PostsRoutes(paths, sidebar);
            && c.Keys == {"/posts/", "/posts"} + (set i | 0 <= i < |paths| :: paths[i])
            && forall k :: k in c ==> c[k] == sidebar && UnderPosts(k)
  {
    var paths := PostPaths(root, "");
    PostPathsArePosts(root, "");
    forall i | 0 <= i < |paths| ensures UnderPosts(paths[i]) {
      assert paths[i][1] == PostsPrefix[1];
    }
  }

  /** The about routes never fall among the posts routes, so they replace none of them. */
  lemma AboutRoutesSpec(c: Config, listing: Option<seq<Node>>, about: seq<Group>)
    requires forall k :: k in c ==> UnderPosts(k)
    ensures var aboutKeys := if listing.Some? then AllAboutKeys(listing.value) else {};
            var r := AboutRoutes(c, listing, about);
            && r.Keys == c.Keys + {"/about/", "/about"} + aboutKeys
            && (forall k :: k in aboutKeys ==> k !in c)
            && forall k :: k in r ==> r[k] == (if k in c then c[k] else about)
  {
    if listing.Some? {
      forall k | k in AllAboutKeys(listing.value) ensures k !in c {
        AboutKeysAreAbout(listing.value, k);
        assert k[1] == 'a';
      }
    }
  }

  /** The route map is the about routes laid over the posts routes. */
  lemma BuildStages(site: Site, loc: PostOrder.Locale)
    requires site.posts.Some?
    ensures var root := site.posts.value;
            Build(site, loc).value ==
              AboutRoutes(PostsRoutes(PostPaths(root, ""), PostsSidebar(root, loc)), site.about, AboutSidebar.Sidebar(site.about))
  {
  }

  /**
   * The route map of a site whose posts directory exists: exactly the posts
   * routes, every post link, the about routes and both routes of every about
   * sub-directory; each posts route shows the category sidebar and each
   * about route the about sidebar.
   */
  lemma BuildSpec(site: Site, loc: PostOrder.Locale)
    requires site.posts.Some?
    ensures var c := Build(site, loc).value;
            var root := site.posts.value;
            var paths := PostPaths(root, "");
            var sidebar := PostsSidebar(root, loc);
            var about := AboutSidebar.Sidebar(site.about);
            var aboutKeys := if site.about.Some? then AllAboutKeys(site.about.value) else {};
            && c.Keys == {"/posts/", "/posts"} + (set i | 0 <= i < |paths| :: paths[i])
                         + {"/about/", "/about"} + aboutKeys
            && c["/posts/"] == sidebar && c["/posts"] == sidebar
            && (forall i :: 0 <= i < |paths| ==> c[paths[i]] == sidebar)
            && c["/about/"] == about && c["/about"] == about
            && (forall k :: k in aboutKeys ==> c[k] == about)
  {
    var root := site.posts.value;
    var paths := PostPaths(root, "");
    var sidebar := PostsSidebar(root, loc);
    var about := AboutSidebar.Sidebar(site.about);
    var posts := PostsRoutes(paths, sidebar);
    var aboutKeys := if site.about.Some? then AllAboutKeys(site.about.value) else {};
    BuildStages(site, loc);
    PostsRoutesSpec(root, sidebar);
    AboutRoutesSpec(posts, site.about, about);
    LayeredRoutes(posts, AboutRoutes(posts, site.about, about), paths, sidebar, about, aboutKeys);
  }

  /** Routes laid over the posts routes, replacing none of them. */
  lemma LayeredRoutes(posts: Config, c: Config, paths: seq<string>, sidebar: seq<Group>, about: seq<Group>,
                      aboutKeys: set<string>)
    requires posts.Keys == {"/posts/", "/posts"} + (set i | 0 <= i < |paths| :: paths[i])
    requires forall k :: k in posts ==> posts[k] == sidebar && UnderPosts(k)
    requires c.Keys == posts.Keys + {"/about/", "/about"} + aboutKeys
    requires forall k :: k in c ==> c[k] == (if k in posts then posts[k] else about)
    requires forall k :: k in aboutKeys ==> k !in posts
    ensures c.Keys == {"/posts/", "/posts"} + (set i | 0 <= i < |paths| :: paths[i]) + {"/about/", "/about"} + aboutKeys
    ensures c["/posts/"] == sidebar && c["/posts"] == sidebar
    ensures forall i :: 0 <= i < |paths| ==> c[paths[i]] == sidebar
    ensures c["/about/"] == about && c["/about"] == about
    ensures forall k :: k in aboutKeys ==> c[k] == about
  {
    assert "/about/" !in posts && "/about" !in posts by {
      assert !UnderPosts("/about/") && !UnderPosts("/about");
    }
  }

  /**
   * With no backslash in any name and no `.md` in any folder name, every
   * walked post's link is a route of the posts sidebar, and the post's item
   * sits in the group of its category there.
   */
  lemma EveryPostRouted(site: Site, loc: PostOrder.Locale, p: Post)
    requires site.posts.Some? && NamesClean(site.posts.value)
    requires p in Walk(site.posts.value, "")
    ensures var c := Build(site, loc).value;
            var sidebar := PostsSidebar(site.posts.value, loc);
            && p.link in c && c[p.link] == sidebar
            && exists j :: 0 <= j < |sidebar| && sidebar[j].text == p.category
                           && Grouping.ItemOf(p) in sidebar[j].items
  {
    var root := site.posts.value;
    var posts := Walk(root, "");
    PostPathsAgree(root, "");
    BuildSpec(site, loc);
    var i :| 0 <= i < |posts| && posts[i] == p;
    assert PostPaths(root, "")[i] == p.link;
    var sorted := PostOrder.Sort(posts, loc);
    assert p in multiset(sorted);
    var k :| 0 <= k < |sorted| && sorted[k] == p;
    Grouping.PostInItsGroup(sorted, k);
  }
}
