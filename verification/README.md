# Sidebar indexer of the blog site, in Dafny

The blog's VitePress configuration (`docs/.vitepress/config.js`) builds its
sidebars when the site is configured, by indexing the content directories:

- **Posts walk.** `readFilesRecursive` walks `docs/posts` depth first. Every
  `*.md` file other than `index.md` becomes a post. Each post has:
  - a title, category, date and order, taken from its YAML-like front matter
    or from defaults;
  - its file path;
  - a link: `/posts/` followed by the path, each segment encoded with
    `encodeURIComponent`.
- **Sorting.** The posts are sorted by `order`. Among equal orders, dated
  posts come first, newest first; undated posts then follow in
  `localeCompare` order of their paths.
- **Grouping.** The sorted posts are grouped by category, in a `Map` that
  keeps insertion order. The category names are then sorted with
  `Array.prototype.sort()`. Each category becomes one expanded, collapsible
  sidebar group.
- **About sidebar.** `generateAboutSidebar` lists a fixed "关于" group.
  It then adds one group for every sub-directory of `docs/about` that holds
  an `index.md` file.
- **Route map.** `generateSidebarConfig` maps routes to sidebars:
  - `/posts/`, `/posts` and every post link, as listed by a second walk
    (`getAllPostPaths`), map to the posts sidebar;
  - `/about/`, `/about` and both routes of every about sub-directory map to
    the about sidebar.

The model treats the directory trees as values (`ContentTree.Node`). The
operations are pure functions over those trees. The modules follow the
stages above:

| module | file | models |
|---|---|---|
| `Text` | text.dfy | the string primitives the code uses: `replace` with a string pattern, `split`/`join`, `trim`, quote removal, UTF-16 code-unit order |
| `UriComponent` | uri_component.dfy | `encodeURIComponent`, its inverse, and the per-segment path encoding |
| `FrontMatter` | front_matter.dfy | the block regex, the `key:\s*(.+)` regexes, value clean-up, `parseInt(...) \|\| 999` |
| `ContentTree` | content_tree.dfy | directory trees and folder paths |
| `PostIndex` | post_index.dfy | the post walk, field defaults and precedence, links, and the second link walk |
| `PostOrder` | post_order.dfy | the comparator and a stable sort, with its uniqueness |
| `Grouping` | grouping.dfy | the category map, the key sort and the groups |
| `AboutSidebar` | about_sidebar.dfy | the about sidebar |
| `SidebarConfig` | sidebar_config.dfy | the route map |
| `Nav`, `Wrappers`, `Multisets` | nav.dfy, wrappers.dfy, multisets.dfy | sidebar records, `Option`/`Result`, multiset facts |

Where the code and its documentation differ, the model follows the code:

- The default category is `文章列表`.
- `.replace('.md', '')` removes the FIRST `.md` anywhere in the path, not
  the extension.
- Only a file named exactly `index.md` is skipped.
- `\s*` after a key may run across line breaks.
- All single and double quotes are removed from a value, not only
  surrounding ones.
- An `order` of 0 becomes 999, because `0 || 999` is 999.
- Undated posts compare their paths with `localeCompare`.
- The two walks disagree for a folder whose name contains `.md`. The posts
  walk strips the first `.md` of the whole relative path, so `a.md/b.md`
  gets the link `/posts/a/b.md`. `getAllPostPaths` strips it from the file
  name only, giving `/posts/a.md/b`. `PostIndex.MdFolderLinksDisagree`
  exhibits this case. `PostIndex.PostPathsAgree` proves the walks agree
  whenever no folder name contains `.md` and no name contains a backslash.

## Model

| member | source | states |
|---|---|---|
| Text.ReplaceFirst | docs/.vitepress/config.js:40 | a string without the pattern is returned unchanged; otherwise exactly one occurrence is replaced (the length changes by the difference) |
| Text.ReplaceFirstLeftmost | docs/.vitepress/config.js:40 | the replaced occurrence is the leftmost one: the text before it and after it is kept verbatim |
| Text.ReplaceChar | docs/.vitepress/config.js:39 | `replace(/\\/g, '/')` turns every backslash into a slash and keeps every other character in its place; no backslash is left, and a string without one is unchanged |
| Text.ReplaceCharAppend | docs/.vitepress/config.js:39 | the replacement works character by character: replacing in a concatenation is replacing in each part |
| Text.ReplaceCharIdempotent | docs/.vitepress/config.js:39 | replacing a second time changes nothing |
| Text.Split | docs/.vitepress/config.js:83 | a split has at least one part and no part contains the separator |
| Text.JoinLength | docs/.vitepress/config.js:85 | joining adds exactly one separator between each two parts and nothing else: the length is the parts' total plus one per separator; JoinSplit and SplitJoin pin the content |
| Text.JoinSplit | docs/.vitepress/config.js:83-85 | joining the parts of a split with the same separator restores the string |
| Text.SplitJoin | docs/.vitepress/config.js:83-85 | splitting a join of separator-free parts gives back exactly those parts |
| Text.Trim | docs/.vitepress/config.js:58 | the result is the input with its leading and trailing white space and line terminators removed, and nothing else |
| Text.RemoveQuotes | docs/.vitepress/config.js:58 | the result contains no single or double quote |
| Text.RemoveQuotesCounts | docs/.vitepress/config.js:58 | every character other than a quote occurs in the result as often as in the input |
| Text.RemoveQuotesAppend | docs/.vitepress/config.js:58 | quotes are removed character by character, so the remaining characters keep their order: removing from a concatenation is removing from each part |
| Text.RemoveQuotesUnchanged | docs/.vitepress/config.js:58 | a value without quotes is left as it is |
| Text.CodeUnitsInjective | docs/.vitepress/config.js:144 | two strings with the same UTF-16 code units are equal |
| Text.CodeUnitTotal | docs/.vitepress/config.js:144 | the default sort order compares every two category names |
| Text.CodeUnitAntisymmetric | docs/.vitepress/config.js:144 | two names that each sort no later than the other are the same name |
| Text.CodeUnitTransitive | docs/.vitepress/config.js:144 | the default sort order is transitive |
| Text.LexCompareZero | docs/.vitepress/config.js:122 | collation keys compare equal exactly when they are the same |
| UriComponent.Utf8 | docs/.vitepress/config.js:84 | a character encodes to one to four UTF-8 bytes, and to one byte exactly when it is ASCII |
| UriComponent.Encode | docs/.vitepress/config.js:84 | the encoding is never shorter and consists only of unreserved characters and `%XX` escapes |
| UriComponent.DecodeEncode | docs/.vitepress/config.js:84 | decoding the encoding of any name gives back the name |
| UriComponent.EncodeUnreserved | docs/.vitepress/config.js:84 | a name of unreserved characters only is left as it is |
| UriComponent.EncodeAppend | docs/.vitepress/config.js:84 | encoding works character by character: the encoding of a concatenation is the concatenation of the encodings |
| UriComponent.EncodePath | docs/.vitepress/config.js:83-85 | the encoded path splits at `/` into exactly the original segments, each encoded on its own; DecodeEncodePath is its inverse |
| UriComponent.EncodePathSegments | docs/.vitepress/config.js:83-85 | the encoded path has exactly the segments of the original path, each encoded on its own |
| UriComponent.DecodeEncodePath | docs/.vitepress/config.js:83-85 | decoding an encoded path restores the path, slashes included |
| UriComponent.EncodePathUnreserved | docs/.vitepress/config.js:83-85 | a path of unreserved characters and slashes is its own encoding |
| UriComponent.EncodePathOfSpacedSegments | docs/.vitepress/config.js:83-85 | segments such as `topic 1/My Post` encode to `topic%201/My%20Post`, keeping the slash, and decode back |
| FrontMatter.Block | docs/.vitepress/config.js:43 | a block exists exactly when the content starts with `---` and a newline and a newline-`---` follows; its body is the text up to the FIRST such closing |
| FrontMatter.Match | docs/.vitepress/config.js:56 | a key's value exists exactly when the key matches somewhere; the value is non-empty and stays on one line |
| FrontMatter.MatchIsLeftmostLongest | docs/.vitepress/config.js:56 | the value is taken at the first occurrence of the key, starting at the last position the backtracking `\s*` can leave, and runs to the end of that line |
| FrontMatter.MatchSameLine | docs/.vitepress/config.js:56 | when the key is followed by blanks and then text on its own line, the value is that text to the end of the line |
| FrontMatter.Clean | docs/.vitepress/config.js:58 | a cleaned value contains no quote; when the trimmed value has no quote, the cleaned value is exactly the trimmed value |
| FrontMatter.CleanQuotedValue | docs/.vitepress/config.js:58 | a value written between quotes, such as `"My post"` with blanks around it, is cleaned to the text between the quotes |
| FrontMatter.OrderValue | docs/.vitepress/config.js:77 | the order is never 0: an unparsable or zero value gives 999, any other parsed integer is kept |
| FrontMatter.ParseInt | docs/.vitepress/config.js:77 | `parseInt` yields a number only when, after leading white space, the text starts with a digit or a sign; ParseIntDecimal is its partner |
| FrontMatter.ParseIntDecimal | docs/.vitepress/config.js:77 | `parseInt` reads back the decimal numeral of any integer, whatever non-digit text follows it; only after a lone `0` may that text not start with `x` or `X`, since `0x` is a hexadecimal prefix |
| FrontMatter.OrderValueOfNumeral | docs/.vitepress/config.js:77 | `order: n` gives order n for every non-zero n, and 999 for 0 |
| FrontMatter.QuotedOrderIsDefault | docs/.vitepress/config.js:77 | a quoted number such as `order: "3"` is not parsed (the quotes are not removed first) and gives 999 |
| FrontMatter.Field | docs/.vitepress/config.js:56-72 | a field is present exactly when its key matches, and its value holds no quote |
| FrontMatter.Extract | docs/.vitepress/config.js:52-78 | content without a block gives no field at all; the title is present exactly when the `title` key matches; a present order is never 0 |
| ContentTree.SubPath | docs/.vitepress/config.js:33 | at the root the folder path is the directory name; below it, the parent path, a slash, then the name |
| PostIndex.MakePost | docs/.vitepress/config.js:38-95 | a post's file name is the listed name, its path is the relative path without its first `.md`, its link is that path encoded under `/posts/`, and its order is never 0 |
| PostIndex.Visit | docs/.vitepress/config.js:26-36 | the posts of one entry, file or directory, all come from files whose name qualifies; WalkSelectsPosts gives the whole walk |
| PostIndex.Walk | docs/.vitepress/config.js:23-36 | every indexed post comes from a file whose name ends in `.md` and is not `index.md` |
| PostIndex.SelectPosts | docs/.vitepress/config.js:36 | a file is selected exactly when it is in the listing and its name qualifies as a post |
| PostIndex.WalkSelectsPosts | docs/.vitepress/config.js:23-36 | the walk is the qualifying files of the tree, depth first in listing order, each made into a post |
| PostIndex.IndexedIffPost | docs/.vitepress/config.js:36 | a file in the tree is indexed exactly when its name ends in `.md` and is not `index.md` |
| PostIndex.NoFrontMatterDefaults | docs/.vitepress/config.js:45-49 | without a block, the title is the file name less its `.md`, the date is empty, the order is 999, and the category is the folder path or `文章列表` at the root |
| PostIndex.CategoryPrecedence | docs/.vitepress/config.js:47 | a post inside a folder takes the folder path as its category whatever its front matter says; at the root a `category` key wins over the default |
| PostIndex.FieldsFromFirstMatch | docs/.vitepress/config.js:52-78 | with a block, title and date are the cleaned first matches or their defaults, and the order is the parsed value or 999 |
| PostIndex.PostPathsCount | docs/.vitepress/config.js:219-240 | whatever the names, the second walk lists one link per walked post |
| PostIndex.PostPathsAgree | docs/.vitepress/config.js:219-240 | with no backslash in any name and no `.md` in any folder name, the second walk lists exactly the links of the walked posts, in walk order |
| PostIndex.MdFolderLinksDisagree | docs/.vitepress/config.js:40 | for a file `b.md` in a folder `a.md`, the post's link is `/posts/a/b.md` while the second walk lists `/posts/a.md/b` |
| PostIndex.UnreservedLink | docs/.vitepress/config.js:89 | a path of unreserved characters and slashes appears verbatim after `/posts/` |
| PostOrder.Compare | docs/.vitepress/config.js:104-123 | different orders compare by order; at equal order two dated posts compare newer first, a dated post comes before an undated one, and two undated posts compare by `localeCompare` of their paths |
| PostOrder.CompareReflexive | docs/.vitepress/config.js:104-123 | every post compares equal to itself |
| PostOrder.CompareAntisymmetric | docs/.vitepress/config.js:104-123 | swapping the two posts negates the comparison |
| PostOrder.CompareTransitive | docs/.vitepress/config.js:104-123 | the comparator is transitive, so it is a consistent comparison function for `sort` |
| PostOrder.Insert | docs/.vitepress/config.js:104 | inserting a post keeps the stable order and adds exactly that post |
| PostOrder.SortTagged | docs/.vitepress/config.js:104 | the result is a stably sorted permutation of its input |
| PostOrder.Sort | docs/.vitepress/config.js:103-123 | the sorted posts are a permutation of the walked ones, and each compares no later than every post after it |
| PostOrder.SortedByFields | docs/.vitepress/config.js:108-122 | orders never decrease; at equal order a dated post never follows an undated one; dated posts run newest first; undated posts run in `localeCompare` order of their paths |
| PostOrder.SortIsStablePermutation | docs/.vitepress/config.js:103-123 | each sorted post is the walked post at a distinct origin; every walk position is used once; posts that compare equal keep their walk order |
| PostOrder.StableSortUnique | docs/.vitepress/config.js:104 | two stably sorted arrangements of the same tagged posts are identical |
| PostOrder.AnyStableSortAgrees | docs/.vitepress/config.js:104 | every stable sort of the walked posts gives exactly `Sort`'s result, whatever algorithm the engine uses |
| PostOrder.DatedBeforeUndated | docs/.vitepress/config.js:108-119 | of two posts with the same order, the dated one is placed first even when it was walked second, and a post with a higher order follows both |
| Grouping.Positions | docs/.vitepress/config.js:128-138 | the positions of a category are in range, carry that category, increase strictly, and include every post of the category |
| Grouping.Collect | docs/.vitepress/config.js:126-138 | the map built by the `forEach` has distinct keys, each with an item list and no list without a key; CollectSpec gives its contents |
| Grouping.Add | docs/.vitepress/config.js:130-137 | a new category is appended to the keys with a list of the one item; a known category gets the item appended; every other category is unchanged |
| Grouping.CollectSpec | docs/.vitepress/config.js:126-138 | after the `forEach` the map has one key per category that occurs, and each key lists the items of that category's posts in sorted-post order |
| Grouping.SortKeys | docs/.vitepress/config.js:144 | the sorted keys are a permutation of the map's keys in ascending code-unit order |
| Grouping.SortedKeysUnique | docs/.vitepress/config.js:144 | there is only one sorted arrangement of the keys, so the result does not depend on the order the map received them |
| Grouping.Groups | docs/.vitepress/config.js:146-154 | every category group is expanded and collapsible |
| Grouping.GroupsSpec | docs/.vitepress/config.js:141-154 | the group texts are exactly the categories that occur, each once, in strictly ascending order, and each group lists its category's items in order |
| Grouping.PostInItsGroup | docs/.vitepress/config.js:126-154 | every post's item is in the group of its category, and no other group has that text |
| AboutSidebar.Child | docs/.vitepress/config.js:184-186 | the entry found has the requested name; when none is found, no entry has that name |
| AboutSidebar.Pages | docs/.vitepress/config.js:178-199 | a sub-page group is listed exactly when some sub-directory holds an `index.md` file; it is named after that directory and links to its page |
| AboutSidebar.PageIndices | docs/.vitepress/config.js:178-186 | the listing positions of the sub-directories holding an `index.md` file: every one of them, each once, in increasing order |
| AboutSidebar.PagesInListingOrder | docs/.vitepress/config.js:178-194 | exactly one group per such sub-directory, in listing order: the k-th group is the group of the k-th such directory |
| AboutSidebar.Sidebar | docs/.vitepress/config.js:162-211 | the home group always comes first; without `docs/about` it is the whole sidebar; otherwise the sub-page groups follow it |
| AboutSidebar.PageLinkDecodes | docs/.vitepress/config.js:187-191 | a sub-page link is `/about/`, one slash-free segment and a final `/`; the segment decodes to the directory name |
| SidebarConfig.PostsSidebar | docs/.vitepress/config.js:13-157 | `generateSidebar` has one group per category of the walked posts and no other; GroupsSpec and EveryPostRouted give the groups' order and items |
| SidebarConfig.RoutePosts | docs/.vitepress/config.js:249-251 | every listed path is added and maps to the posts sidebar; every other route is unchanged |
| SidebarConfig.RouteAbout | docs/.vitepress/config.js:261-269 | both routes of every about sub-directory, index page or not, are added and map to the about sidebar; every other route is unchanged |
| SidebarConfig.Build | docs/.vitepress/config.js:214-275 | building fails exactly when `docs/posts` cannot be listed |
| SidebarConfig.PostPathsArePosts | docs/.vitepress/config.js:235 | every link of the second walk begins with `/posts/` |
| SidebarConfig.PostsRoutesSpec | docs/.vitepress/config.js:247-251 | the posts routes are `/posts/`, `/posts` and the listed links, all showing the posts sidebar |
| SidebarConfig.AboutRoutesSpec | docs/.vitepress/config.js:254-269 | the about routes are added beside the posts routes without replacing any of them |
| SidebarConfig.BuildSpec | docs/.vitepress/config.js:242-274 | the route map has exactly the posts routes, every post link, the about routes and both routes of every about sub-directory; posts routes show the category sidebar and about routes the about sidebar |
| SidebarConfig.EveryPostRouted | docs/.vitepress/config.js:242-251 | with clean names, every post's link is a route showing the posts sidebar, and the post's item sits in the group of its category there |

## Left out

- File system access (`readdirSync`, `readFileSync`, `statSync`, `path.join`, `process.cwd()`): the directory trees are inputs. A listing is a sequence in `readdir` order, and file contents are already decoded from UTF-8.
- Entries that are neither files nor directories, and `statSync` failing on an entry (a broken symbolic link): every entry is a file or a directory.
- AboutSidebar.Sidebar: does not model the outer `catch` after the home group has been pushed (a sub-directory entry failing `statSync`), which would list the home group twice. Only a missing `docs/about` is modelled, giving the home group alone.
- AboutSidebar.Child: takes the first entry of a given name; a real directory cannot hold two entries with the same name.
- SidebarConfig.Build: a missing `docs/posts` is a `Failure`, where the code throws out of the configuration. A missing `docs/about` is tolerated, as the code's `catch` does.
- PostOrder.Compare: `new Date(s)` is the parameter `Locale.dateValue`, giving an integer for every string. Invalid dates (NaN), and the inconsistent comparisons NaN causes, are not modelled.
- PostOrder.LocaleCompare: `localeCompare` is the parameter `Locale.collationKey`, compared lexicographically. Any locale's collation is covered, but not one that is not a total preorder.
- PostOrder.Sort: V8's sort algorithm is replaced by an insertion sort. `AnyStableSortAgrees` shows that every stable sort gives the same result.
- FrontMatter.OrderValue: `parseInt` is modelled on unbounded integers. Double-precision rounding and `Infinity` for very long numerals are not modelled.
- UriComponent.Encode: lone surrogates, on which `encodeURIComponent` throws `URIError`, cannot occur in Dafny strings, so that error path is not modelled.
- The relative path is built from the folder path directly, assuming POSIX paths: `path.join` normalisation and the `replace(postsDir + '/', '')` prefix removal are assumed to give the same string, as they do with `/` as the separator. With `\` separators `postsDir + '/'` never matches and the path would stay absolute until the backslash rewrite; that case is not modelled.
- JavaScript object key order in the route map: the map is modelled as a finite map, since VitePress looks routes up by prefix.
- The static part of `defineConfig` (lines 277 onwards: title, theme, navigation) is constant data with no logic.
- The older `docs/.vuepress/config.js` is not part of this model.
