/**
 * The order of the walked posts (docs/.vitepress/config.js, lines 103-123):
 * the comparator handed to `Array.prototype.sort`, its total-preorder laws,
 * and a stable sort by that comparator. `Array.prototype.sort` is stable, and
 * a stable sort's result is unique, so any stable sort (the engine's own
 * included) produces the sequence `Sort` computes here.
 */
module PostOrder {
  import Text
  import Multisets
  import opened PostIndex

  /**
   * What the comparator takes from the JavaScript environment: the time
   * value `new Date(s)` gives a date string, and the collation key under
   * which `localeCompare` compares two strings.
   */
  datatype Locale = Locale(dateValue: string -> int, collationKey: string -> seq<int>)

  /** `a.localeCompare(b)`: negative, zero or positive. */
  function LocaleCompare(a: string, b: string, loc: Locale): int {
    Text.LexCompare(loc.collationKey(a), loc.collationKey(b))
  }

  /**
   * The comparator: ascending `order`; then, when both are dated, the newer
   * date first; then a dated post before an undated one; then `localeCompare`
   * of the file paths.
   */
  function Compare(a: Post, b: Post, loc: Locale): (r: int)
    ensures a.order != b.order ==> r != 0 && (r < 0 <==> a.order < b.order)
    ensures a.order == b.order && a.date != "" && b.date != "" ==>
              (r < 0 <==> loc.dateValue(a.date) > loc.dateValue(b.date))
    ensures a.order == b.order && a.date != "" && b.date == "" ==> r < 0
    ensures a.order == b.order && a.date == "" && b.date != "" ==> r > 0
    ensures a.order == b.order && a.date == "" && b.date == "" ==> r == LocaleCompare(a.filePath, b.filePath, loc)
  {
    if a.order != b.order then a.order - b.order
    else if a.date != "" && b.date != "" then loc.dateValue(b.date) - loc.dateValue(a.date)
    else if a.date != "" && b.date == "" then -1
    else if a.date == "" && b.date != "" then 1
    else LocaleCompare(a.filePath, b.filePath, loc)
  }

  lemma CompareReflexive(a: Post, loc: Locale)
    ensures Compare(a, a, loc) == 0
  {
    Text.LexCompareZero(loc.collationKey(a.filePath), loc.collationKey(a.filePath));
  }

  /** Swapping the arguments negates the result. */
  lemma CompareAntisymmetric(a: Post, b: Post, loc: Locale)
    ensures Compare(a, b, loc) == -Compare(b, a, loc)
  {
    Text.LexCompareAntisymmetric(loc.collationKey(a.filePath), loc.collationKey(b.filePath));
  }

  /** "Sorts no later than" is transitive. */
  lemma CompareTransitive(a: Post, b: Post, c: Post, loc: Locale)
    requires Compare(a, b, loc) <= 0 && Compare(b, c, loc) <= 0
    ensures Compare(a, c, loc) <= 0
  {
    if a.order == b.order == c.order && a.date == "" && b.date == "" && c.date == "" {
      Text.LexCompareTransitive(loc.collationKey(a.filePath), loc.collationKey(b.filePath),
                                loc.collationKey(c.filePath));
    }
  }

  /** Ties are transitive too: a chain whose ends tie ties throughout. */
  lemma CompareTieSqueeze(a: Post, b: Post, c: Post, loc: Locale)
    requires Compare(a, b, loc) <= 0 && Compare(b, c, loc) <= 0 && Compare(a, c, loc) == 0
    ensures Compare(a, b, loc) == 0 && Compare(b, c, loc) == 0
  {
    CompareAntisymmetric(a, c, loc);
    CompareTransitive(b, c, a, loc);
    CompareAntisymmetric(a, b, loc);
    CompareTransitive(c, a, b, loc);
    CompareAntisymmetric(b, c, loc);
  }

  /** A post with its position in the walk, which breaks ties. */
  datatype Tagged = Tagged(index: nat, post: Post)

  function Tag(posts: seq<Post>): (ts: seq<Tagged>)
    ensures |ts| == |posts|
  {
    seq(|posts|, i requires 0 <= i < |posts| => Tagged(i, posts[i]))
  }

  function Untag(ts: seq<Tagged>): (r: seq<Post>)
    ensures |r| == |ts|
  {
    seq(|ts|, i requires 0 <= i < |ts| => ts[i].post)
  }

  /** `x` precedes `y` in a stable sort: it compares lower, or ties and came first. */
  predicate Before(x: Tagged, y: Tagged, loc: Locale) {
    var c := Compare(x.post, y.post, loc);
    c < 0 || (c == 0 && x.index < y.index)
  }

  lemma BeforeTransitive(x: Tagged, y: Tagged, z: Tagged, loc: Locale)
    requires Before(x, y, loc) && Before(y, z, loc)
    ensures Before(x, z, loc)
  {
    CompareTransitive(x.post, y.post, z.post, loc);
    if Compare(x.post, z.post, loc) == 0 {
      CompareTieSqueeze(x.post, y.post, z.post, loc);
    }
  }

  lemma BeforeTotal(x: Tagged, y: Tagged, loc: Locale)
    requires x.index != y.index
    ensures Before(x, y, loc) || Before(y, x, loc)
  {
    CompareAntisymmetric(x.post, y.post, loc);
  }

  lemma BeforeAsymmetric(x: Tagged, y: Tagged, loc: Locale)
    ensures !(Before(x, y, loc) && Before(y, x, loc))
  {
    CompareAntisymmetric(x.post, y.post, loc);
  }

  predicate StablySorted(ts: seq<Tagged>, loc: Locale) {
    forall i, j :: 0 <= i < j < |ts| ==> Before(ts[i], ts[j], loc)
  }

  predicate DistinctIndices(ts: seq<Tagged>) {
    forall i, j :: 0 <= i < j < |ts| ==> ts[i].index != ts[j].index
  }

  /** `x` precedes every element of `ts`. */
  predicate PrecedesAll(x: Tagged, ts: seq<Tagged>, loc: Locale) {
    forall j :: 0 <= j < |ts| ==> Before(x, ts[j], loc)
  }

  lemma PrependSorted(x: Tagged, ts: seq<Tagged>, loc: Locale)
    requires StablySorted(ts, loc) && PrecedesAll(x, ts, loc)
    ensures StablySorted([x] + ts, loc)
  {
    var r := [x] + ts;
    forall i, j | 0 <= i < j < |r| ensures Before(r[i], r[j], loc) {
      if i > 0 {
        assert r[i] == ts[i - 1] && r[j] == ts[j - 1];
      }
    }
  }

  /** Whatever precedes the head of a stably sorted sequence precedes all of it. */
  lemma PrecedesHead(x: Tagged, ts: seq<Tagged>, loc: Locale)
    requires StablySorted(ts, loc) && (|ts| > 0 ==> Before(x, ts[0], loc))
    ensures PrecedesAll(x, ts, loc)
  {
    forall j | 0 < j < |ts| ensures Before(x, ts[j], loc) {
      BeforeTransitive(x, ts[0], ts[j], loc);
    }
  }

  /** Preceding every element is a property of the multiset of elements. */
  lemma PrecedesPool(y: Tagged, rest: seq<Tagged>, pool: seq<Tagged>, x: Tagged, loc: Locale)
    requires multiset(rest) == multiset(pool) + multiset{x}
    requires PrecedesAll(y, pool, loc) && Before(y, x, loc)
    ensures PrecedesAll(y, rest, loc)
  {
    forall j | 0 <= j < |rest| ensures Before(y, rest[j], loc) {
      assert rest[j] in multiset(rest);
      if rest[j] != x {
        assert rest[j] in multiset(pool);
      }
    }
  }

  lemma UntagCons(x: Tagged, ts: seq<Tagged>)
    ensures Untag([x] + ts) == [x.post] + Untag(ts)
    ensures multiset(Untag([x] + ts)) == multiset{x.post} + multiset(Untag(ts))
  {
    assert Untag([x] + ts) == [x.post] + Untag(ts);
  }

  /** Inserts `x` into a stably sorted sequence, after everything that precedes it. */
  function Insert(x: Tagged, ts: seq<Tagged>, loc: Locale): (r: seq<Tagged>)
    requires StablySorted(ts, loc)
    requires forall i :: 0 <= i < |ts| ==> ts[i].index != x.index
    ensures multiset(r) == multiset(ts) + multiset{x}
    ensures multiset(Untag(r)) == multiset(Untag(ts)) + multiset{x.post}
    ensures StablySorted(r, loc)
  {
    if |ts| == 0 || Before(x, ts[0], loc) then
      InsertAtHead(x, ts, loc);
      [x] + ts
    else
      var rest := Insert(x, ts[1..], loc);
      InsertAfterHead(x, ts, rest, loc);
      [ts[0]] + rest
  }

  lemma InsertAtHead(x: Tagged, ts: seq<Tagged>, loc: Locale)
    requires StablySorted(ts, loc)
    requires |ts| == 0 || Before(x, ts[0], loc)
    ensures multiset([x] + ts) == multiset(ts) + multiset{x}
    ensures multiset(Untag([x] + ts)) == multiset(Untag(ts)) + multiset{x.post}
    ensures StablySorted([x] + ts, loc)
  {
    UntagCons(x, ts);
    PrecedesHead(x, ts, loc);
    PrependSorted(x, ts, loc);
  }

  lemma InsertAfterHead(x: Tagged, ts: seq<Tagged>, rest: seq<Tagged>, loc: Locale)
    requires StablySorted(ts, loc) && |ts| > 0 && ts[0].index != x.index && !Before(x, ts[0], loc)
    requires multiset(rest) == multiset(ts[1..]) + multiset{x}
    requires multiset(Untag(rest)) == multiset(Untag(ts[1..])) + multiset{x.post}
    requires StablySorted(rest, loc)
    ensures multiset([ts[0]] + rest) == multiset(ts) + multiset{x}
    ensures multiset(Untag([ts[0]] + rest)) == multiset(Untag(ts)) + multiset{x.post}
    ensures StablySorted([ts[0]] + rest, loc)
  {
    BeforeTotal(x, ts[0], loc);
    var tail := ts[1..];
    assert ts == [ts[0]] + tail;
    UntagCons(ts[0], tail);
    UntagCons(ts[0], rest);
    PrecedesPool(ts[0], rest, tail, x, loc);
    PrependSorted(ts[0], rest, loc);
  }

  /** Indices absent from a sequence are absent from any rearrangement of it. */
  lemma IndexStaysFresh(x: Tagged, ts: seq<Tagged>, rs: seq<Tagged>)
    requires multiset(rs) == multiset(ts)
    requires forall j :: 0 <= j < |ts| ==> ts[j].index != x.index
    ensures forall i :: 0 <= i < |rs| ==> rs[i].index != x.index
  {
    forall i | 0 <= i < |rs| ensures rs[i].index != x.index {
      assert rs[i] in multiset(ts);
    }
  }

  lemma DistinctIndicesCons(ts: seq<Tagged>)
    requires DistinctIndices(ts) && |ts| > 0
    ensures DistinctIndices(ts[1..])
    ensures forall j :: 0 <= j < |ts[1..]| ==> ts[1..][j].index != ts[0].index
  {
  }

  /** Stable insertion sort of index-tagged posts. */
  function SortTagged(ts: seq<Tagged>, loc: Locale): (r: seq<Tagged>)
    requires DistinctIndices(ts)
    ensures multiset(r) == multiset(ts)
    ensures multiset(Untag(r)) == multiset(Untag(ts))
    ensures StablySorted(r, loc)
  {
    if |ts| == 0 then []
    else
      var tail := ts[1..];
      assert ts == [ts[0]] + tail;
      DistinctIndicesCons(ts);
      var sorted := SortTagged(tail, loc);
      UntagCons(ts[0], tail);
      IndexStaysFresh(ts[0], tail, sorted);
      Insert(ts[0], sorted, loc)
  }

  lemma TagDistinct(posts: seq<Post>)
    ensures DistinctIndices(Tag(posts))
    ensures Untag(Tag(posts)) == posts
  {
  }

  /** The walked posts in sidebar order (the `sort` call at line 104). */
  function Sort(posts: seq<Post>, loc: Locale): (r: seq<Post>)
    ensures |r| == |posts|
    ensures multiset(r) == multiset(posts)
    ensures forall i, j :: 0 <= i < j < |r| ==> Compare(r[i], r[j], loc) <= 0
  {
    TagDistinct(posts);
    var ts := SortTagged(Tag(posts), loc);
    assert |ts| == |posts| by {
      assert |multiset(ts)| == |multiset(Tag(posts))|;
    }
    Untag(ts)
  }

  /**
   * What the order of `Sort` means field by field: orders never decrease;
   * among equal orders a dated post never follows an undated one, dated
   * posts run from the newest date to the oldest, and undated posts run in
   * ascending `localeCompare` order of their file paths.
   */
  lemma SortedByFields(posts: seq<Post>, loc: Locale, i: nat, j: nat)
    requires i < j < |posts|
    ensures var r := Sort(posts, loc);
            && r[i].order <= r[j].order
            && (r[i].order == r[j].order && r[j].date != "" ==> r[i].date != "")
            && (r[i].order == r[j].order && r[i].date != "" && r[j].date != "" ==>
                  loc.dateValue(r[i].date) >= loc.dateValue(r[j].date))
            && (r[i].order == r[j].order && r[i].date == "" && r[j].date == "" ==>
                  LocaleCompare(r[i].filePath, r[j].filePath, loc) <= 0)
  {
    var r := Sort(posts, loc);
    assert Compare(r[i], r[j], loc) <= 0;
  }

  /** The walk position each sorted post came from. */
  function Origins(posts: seq<Post>, loc: Locale): (r: seq<nat>)
  {
    TagDistinct(posts);
    var ts := SortTagged(Tag(posts), loc);
    seq(|ts|, i requires 0 <= i < |ts| => ts[i].index)
  }

  /** Every element of a rearrangement of `Tag(posts)` is some post with its own index. */
  lemma TaggedFromPosts(posts: seq<Post>, ts: seq<Tagged>)
    requires multiset(ts) == multiset(Tag(posts))
    ensures forall k :: 0 <= k < |ts| ==> ts[k].index < |posts| && ts[k].post == posts[ts[k].index]
  {
    forall k | 0 <= k < |ts| ensures ts[k].index < |posts| && ts[k].post == posts[ts[k].index] {
      assert ts[k] in multiset(Tag(posts));
    }
  }

  /** Every tagged post occurs in a rearrangement of `Tag(posts)`. */
  lemma TaggedCovers(posts: seq<Post>, ts: seq<Tagged>)
    requires multiset(ts) == multiset(Tag(posts))
    ensures forall i :: 0 <= i < |posts| ==> Tag(posts)[i] in ts
  {
    forall i | 0 <= i < |posts| ensures Tag(posts)[i] in ts {
      assert Tag(posts)[i] in multiset(ts);
    }
  }

  /** A stably sorted sequence never repeats an element. */
  lemma SortedDistinct(ts: seq<Tagged>, loc: Locale)
    requires StablySorted(ts, loc)
    ensures forall k, l :: 0 <= k < l < |ts| ==> ts[k] != ts[l]
  {
    forall k, l | 0 <= k < l < |ts| ensures ts[k] != ts[l] {
      BeforeAsymmetric(ts[k], ts[l], loc);
    }
  }

  /** The origins of a stably sorted rearrangement of the tagged posts. */
  lemma StableRearrangement(posts: seq<Post>, ts: seq<Tagged>, o: seq<nat>, loc: Locale)
    requires StablySorted(ts, loc) && multiset(ts) == multiset(Tag(posts))
    requires |o| == |ts| && forall k :: 0 <= k < |ts| ==> o[k] == ts[k].index
    ensures forall k :: 0 <= k < |o| ==> o[k] < |posts| && ts[k].post == posts[o[k]]
    ensures forall k, l :: 0 <= k < l < |o| ==> o[k] != o[l]
    ensures forall i :: 0 <= i < |posts| ==> i in o
    ensures forall k, l :: 0 <= k < l < |ts| && Compare(ts[k].post, ts[l].post, loc) == 0 ==> o[k] < o[l]
  {
    TaggedFromPosts(posts, ts);
    TaggedCovers(posts, ts);
    SortedDistinct(ts, loc);
    forall i | 0 <= i < |posts| ensures i in o {
      var k :| 0 <= k < |ts| && ts[k] == Tag(posts)[i];
      assert o[k] == i;
    }
  }

  /**
   * `Sort` is a stable permutation: the k-th sorted post is the post at walk
   * position `Origins[k]`, every walk position occurs exactly once, and
   * posts that compare equal keep their walk order.
   */
  lemma SortIsStablePermutation(posts: seq<Post>, loc: Locale)
    ensures var r := Sort(posts, loc);
            var o := Origins(posts, loc);
            && |o| == |r| == |posts|
            && (forall k :: 0 <= k < |o| ==> o[k] < |posts| && r[k] == posts[o[k]])
            && (forall k, l :: 0 <= k < l < |o| ==> o[k] != o[l])
            && (forall i :: 0 <= i < |posts| ==> i in o)
            && (forall k, l :: 0 <= k < l < |r| && Compare(r[k], r[l], loc) == 0 ==> o[k] < o[l])
  {
    TagDistinct(posts);
    var ts := SortTagged(Tag(posts), loc);
    StableRearrangement(posts, ts, Origins(posts, loc), loc);
  }

  /**
   * Two stably sorted arrangements of the same tagged posts are identical:
   * the result of a stable sort does not depend on the algorithm.
   */
  lemma {:induction false} StableSortUnique(a: seq<Tagged>, b: seq<Tagged>, loc: Locale)
    requires StablySorted(a, loc) && StablySorted(b, loc)
    requires multiset(a) == multiset(b)
    ensures a == b
  {
    if |a| == 0 {
      assert |multiset(b)| == 0;
    } else {
      assert |b| > 0 by {
        assert a[0] in multiset(b);
      }
      if a[0] != b[0] {
        assert a[0] in multiset(b);
        assert b[0] in multiset(a);
        var k :| 0 <= k < |b| && b[k] == a[0];
        var m :| 0 <= m < |a| && a[m] == b[0];
        BeforeAsymmetric(a[0], b[0], loc);
        assert false;
      }
      Multisets.SameTail(a, b);
      StableSortUnique(a[1..], b[1..], loc);
    }
  }

  /** Any stable sort of the walked posts yields exactly `Sort`'s result. */
  lemma AnyStableSortAgrees(posts: seq<Post>, ts: seq<Tagged>, loc: Locale)
    requires StablySorted(ts, loc) && multiset(ts) == multiset(Tag(posts))
    ensures Untag(ts) == Sort(posts, loc)
  {
    StableSortUnique(ts, SortTagged(Tag(posts), loc), loc);
  }

  lemma TagThree(posts: seq<Post>)
    requires |posts| == 3
    ensures multiset([Tagged(1, posts[1]), Tagged(0, posts[0]), Tagged(2, posts[2])]) == multiset(Tag(posts))
  {
    assert Tag(posts) == [Tagged(0, posts[0]), Tagged(1, posts[1]), Tagged(2, posts[2])];
  }

  lemma DatedBeforeUndatedSorted(a: Post, b: Post, c: Post, loc: Locale)
    requires a.order == b.order < c.order
    requires a.date == "" && b.date != ""
    ensures StablySorted([Tagged(1, b), Tagged(0, a), Tagged(2, c)], loc)
  {
    var ts := [Tagged(1, b), Tagged(0, a), Tagged(2, c)];
    assert Before(ts[0], ts[1], loc) && Before(ts[0], ts[2], loc) && Before(ts[1], ts[2], loc);
  }

  /**
   * Of the first two of three posts with the same `order`, the dated one
   * comes first even though it was walked second, and the third post, with
   * a higher `order`, comes after both whatever its date.
   */
  lemma DatedBeforeUndated(posts: seq<Post>, loc: Locale)
    requires |posts| == 3 && posts[0].order == posts[1].order < posts[2].order
    requires posts[0].date == "" && posts[1].date != ""
    ensures Sort(posts, loc) == [posts[1], posts[0], posts[2]]
  {
    var ts := [Tagged(1, posts[1]), Tagged(0, posts[0]), Tagged(2, posts[2])];
    SwappedThreeIsSort(posts, ts, loc);
    UntagThree(posts[1], posts[0], posts[2], ts);
  }

  lemma SwappedThreeIsSort(posts: seq<Post>, ts: seq<Tagged>, loc: Locale)
    requires |posts| == 3 && posts[0].order == posts[1].order < posts[2].order
    requires posts[0].date == "" && posts[1].date != ""
    requires ts == [Tagged(1, posts[1]), Tagged(0, posts[0]), Tagged(2, posts[2])]
    ensures Untag(ts) == Sort(posts, loc)
  {
    TagThree(posts);
    DatedBeforeUndatedSorted(posts[0], posts[1], posts[2], loc);
    AnyStableSortAgrees(posts, ts, loc);
  }

  lemma UntagThree(a: Post, b: Post, c: Post, ts: seq<Tagged>)
    requires |ts| == 3 && ts[0].post == a && ts[1].post == b && ts[2].post == c
    ensures Untag(ts) == [a, b, c]
  {
  }
}
