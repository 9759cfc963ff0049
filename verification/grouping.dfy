/**
 * Grouping the sorted posts by category (docs/.vitepress/config.js, lines
 * 126-154): a `Map` from category to items filled in post order, whose keys
 * are then sorted in `Array.prototype.sort()`'s default order, one group per
 * key.
 */
module Grouping {
  import opened Wrappers
  import Text
  import Multisets
  import opened Nav
  import opened PostIndex

  /** The sidebar item of a post: `{ text: title, link }`. */
  function ItemOf(p: Post): Item {
    Item(p.title, p.link)
  }

  /** The categories the posts fall into. */
  function Categories(posts: seq<Post>): set<string> {
    set i | 0 <= i < |posts| :: posts[i].category
  }

  /** Rearranging the posts keeps the same categories. */
  lemma CategoriesOfPermutation(a: seq<Post>, b: seq<Post>)
    requires multiset(a) == multiset(b)
    ensures Categories(a) == Categories(b)
  {
    forall c | c in Categories(a) ensures c in Categories(b) {
      var i :| 0 <= i < |a| && a[i].category == c;
      assert a[i] in multiset(b);
      var j :| 0 <= j < |b| && b[j] == a[i];
    }
    forall c | c in Categories(b) ensures c in Categories(a) {
      var j :| 0 <= j < |b| && b[j].category == c;
      assert b[j] in multiset(a);
      var i :| 0 <= i < |a| && a[i] == b[j];
    }
  }

  /** The positions of the posts in category `c`, in increasing order. */
  function Positions(posts: seq<Post>, c: string): (pos: seq<nat>)
    ensures forall j :: 0 <= j < |pos| ==> pos[j] < |posts| && posts[pos[j]].category == c
    ensures forall j, k :: 0 <= j < k < |pos| ==> pos[j] < pos[k]
    ensures forall i :: 0 <= i < |posts| && posts[i].category == c ==> i in pos
  {
    if |posts| == 0 then []
    else
      var n := |posts| - 1;
      var front := Positions(posts[..n], c);
      front + (if posts[n].category == c then [n] else [])
  }

  /** The items of category `c`: the items of its posts, in post order. */
  function ItemsOf(posts: seq<Post>, c: string): (r: seq<Item>)
    ensures |r| == |Positions(posts, c)|
  {
    var pos := Positions(posts, c);
    seq(|pos|, j requires 0 <= j < |pos| => ItemOf(posts[pos[j]]))
  }

  lemma ItemsOfSnoc(posts: seq<Post>, c: string)
    requires |posts| > 0
    ensures var n := |posts| - 1;
            ItemsOf(posts, c) ==
              ItemsOf(posts[..n], c) + (if posts[n].category == c then [ItemOf(posts[n])] else [])
  {
    var n := |posts| - 1;
    var front := Positions(posts[..n], c);
    var last: seq<nat> := if posts[n].category == c then [n] else [];
    assert Positions(posts, c) == front + last;
    var lhs := ItemsOf(posts, c);
    var rhs := ItemsOf(posts[..n], c) + (if posts[n].category == c then [ItemOf(posts[n])] else []);
    assert |lhs| == |rhs|;
    forall j | 0 <= j < |lhs| ensures lhs[j] == rhs[j] {
      if j < |front| {
        assert posts[..n][front[j]] == posts[front[j]];
      }
    }
  }

  /** `categoryMap`: its keys in insertion order and the item list under each key. */
  datatype CategoryMap = CategoryMap(keys: seq<string>, items: map<string, seq<Item>>)

  predicate DistinctKeys(keys: seq<string>) {
    forall i, j :: 0 <= i < j < |keys| ==> keys[i] != keys[j]
  }

  /** The keys list and the map's domain agree, and no key repeats. */
  predicate WellFormed(m: CategoryMap) {
    && (forall k :: k in m.items ==> k in m.keys)
    && (forall k :: k in m.keys ==> k in m.items)
    && DistinctKeys(m.keys)
  }

  /** One step of the `forEach`: create the category's list if new, then append the post's item. */
  function Add(m: CategoryMap, p: Post): (r: CategoryMap)
    requires WellFormed(m)
    ensures WellFormed(r)
    ensures p.category in m.items ==> r.keys == m.keys
    ensures p.category !in m.items ==> r.keys == m.keys + [p.category]
    ensures r.items[p.category] == (if p.category in m.items then m.items[p.category] else []) + [ItemOf(p)]
    ensures forall k :: k in m.items && k != p.category ==> k in r.items && r.items[k] == m.items[k]
  {
    var c := p.category;
    if c in m.items then CategoryMap(m.keys, m.items[c := m.items[c] + [ItemOf(p)]])
    else CategoryMap(m.keys + [c], m.items[c := [ItemOf(p)]])
  }

  /** The map after the `forEach` over `posts`. */
  function Collect(posts: seq<Post>): (m: CategoryMap)
    ensures WellFormed(m)
  {
    if |posts| == 0 then CategoryMap([], map[])
    else Add(Collect(posts[..|posts| - 1]), posts[|posts| - 1])
  }

  lemma CategoriesSnoc(posts: seq<Post>)
    requires |posts| > 0
    ensures var n := |posts| - 1;
            Categories(posts) == Categories(posts[..n]) + {posts[n].category}
  {
    var n := |posts| - 1;
    var front := posts[..n];
    forall k | k in Categories(posts) ensures k in Categories(front) + {posts[n].category} {
      var i :| 0 <= i < |posts| && posts[i].category == k;
      if i < n {
        assert front[i].category == k;
      }
    }
    forall k | k in Categories(front) ensures k in Categories(posts) {
      var i :| 0 <= i < |front| && front[i].category == k;
      assert posts[i].category == k;
    }
  }

  /** A category no post is in has no items. */
  lemma ItemsOfAbsent(posts: seq<Post>, c: string)
    ensures c !in Categories(posts) ==> ItemsOf(posts, c) == []
  {
    var pos := Positions(posts, c);
    if |pos| > 0 {
      assert posts[pos[0]].category == c;
    }
  }

  /**
   * The map holds one key per category that occurs, and under each key the
   * items of that category's posts in post order.
   */
  lemma {:induction false} CollectSpec(posts: seq<Post>)
    ensures var m := Collect(posts);
            && (forall k :: k in m.items <==> k in Categories(posts))
            && (forall k :: k in m.items ==> m.items[k] == ItemsOf(posts, k))
  {
    if |posts| > 0 {
      var n := |posts| - 1;
      var front := posts[..n];
      CollectSpec(front);
      CategoriesSnoc(posts);
      var m0 := Collect(front);
      var m := Collect(posts);
      forall k | k in m.items ensures m.items[k] == ItemsOf(posts, k) {
        ItemsOfSnoc(posts, k);
        if k == posts[n].category && k !in m0.items {
          ItemsOfAbsent(front, k);
        }
      }
    }
  }

  /** Every key sorts no later than the ones after it. */
  predicate SortedKeys(ks: seq<string>) {
    forall i, j :: 0 <= i < j < |ks| ==> Text.CodeUnitLe(ks[i], ks[j])
  }

  lemma PrependKey(k: string, ks: seq<string>)
    requires SortedKeys(ks) && forall j :: 0 <= j < |ks| ==> Text.CodeUnitLe(k, ks[j])
    ensures SortedKeys([k] + ks)
  {
    var r := [k] + ks;
    forall i, j | 0 <= i < j < |r| ensures Text.CodeUnitLe(r[i], r[j]) {
      if i > 0 {
        assert r[i] == ks[i - 1] && r[j] == ks[j - 1];
      }
    }
  }

  lemma KeyBeforeHead(k: string, ks: seq<string>)
    requires SortedKeys(ks) && (|ks| > 0 ==> Text.CodeUnitLe(k, ks[0]))
    ensures forall j :: 0 <= j < |ks| ==> Text.CodeUnitLe(k, ks[j])
  {
    forall j | 0 < j < |ks| ensures Text.CodeUnitLe(k, ks[j]) {
      Text.CodeUnitTransitive(k, ks[0], ks[j]);
    }
  }

  lemma KeyBeforePool(h: string, rest: seq<string>, pool: seq<string>, k: string)
    requires multiset(rest) == multiset(pool) + multiset{k}
    requires (forall j :: 0 <= j < |pool| ==> Text.CodeUnitLe(h, pool[j])) && Text.CodeUnitLe(h, k)
    ensures forall j :: 0 <= j < |rest| ==> Text.CodeUnitLe(h, rest[j])
  {
    forall j | 0 <= j < |rest| ensures Text.CodeUnitLe(h, rest[j]) {
      assert rest[j] in multiset(rest);
      if rest[j] != k {
        assert rest[j] in multiset(pool);
      }
    }
  }

  function InsertKey(k: string, ks: seq<string>): (r: seq<string>)
    requires SortedKeys(ks)
    ensures multiset(r) == multiset(ks) + multiset{k}
    ensures SortedKeys(r)
  {
    if |ks| == 0 || Text.CodeUnitLe(k, ks[0]) then
      KeyBeforeHead(k, ks);
      PrependKey(k, ks);
      [k] + ks
    else
      Text.CodeUnitTotal(k, ks[0]);
      var tail := ks[1..];
      assert ks == [ks[0]] + tail;
      var rest := InsertKey(k, tail);
      KeyBeforePool(ks[0], rest, tail, k);
      PrependKey(ks[0], rest);
      [ks[0]] + rest
  }

  /** `Array.from(categoryMap.keys()).sort()`: ascending UTF-16 code-unit order. */
  function SortKeys(ks: seq<string>): (r: seq<string>)
    ensures multiset(r) == multiset(ks)
    ensures SortedKeys(r)
  {
    if |ks| == 0 then []
    else
      assert ks == [ks[0]] + ks[1..];
      InsertKey(ks[0], SortKeys(ks[1..]))
  }

  /**
   * Sorted distinct keys are strictly ascending, and there is only one such
   * arrangement of a set of keys: the result of sorting the keys does not
   * depend on the order the map received them in.
   */
  lemma {:induction false} SortedKeysUnique(a: seq<string>, b: seq<string>)
    requires SortedKeys(a) && SortedKeys(b) && multiset(a) == multiset(b)
    ensures a == b
  {
    if |a| == 0 {
      assert |multiset(b)| == 0;
    } else {
      assert a[0] in multiset(b);
      if a[0] != b[0] {
        assert b[0] in multiset(a);
        var k :| 0 <= k < |b| && b[k] == a[0];
        var m :| 0 <= m < |a| && a[m] == b[0];
        Text.CodeUnitAntisymmetric(a[0], b[0]);
        assert false;
      }
      Multisets.SameTail(a, b);
      SortedKeysUnique(a[1..], b[1..]);
    }
  }

  /** The folding flags of every category group: expanded, and collapsible. */
  const Expanded := Folding(false, true)

  /** The sidebar of the posts section: one group per category, in sorted category order. */
  function Groups(posts: seq<Post>): (gs: seq<Group>)
    ensures forall i :: 0 <= i < |gs| ==> gs[i].folding == Some(Expanded)
  {
    var m := Collect(posts);
    var keys := SortKeys(m.keys);
    assert forall i :: 0 <= i < |keys| ==> keys[i] in m.items by {
      forall i | 0 <= i < |keys| ensures keys[i] in m.items {
        assert keys[i] in multiset(m.keys);
      }
    }
    seq(|keys|, i requires 0 <= i < |keys| => Group(keys[i], Some(Expanded), m.items[keys[i]]))
  }

  /** The group texts are the sorted keys of the collected map. */
  lemma GroupsTexts(posts: seq<Post>)
    ensures Texts(Groups(posts)) == SortKeys(Collect(posts).keys)
  {
  }

  lemma GroupsItems(posts: seq<Post>)
    ensures var gs := Groups(posts);
            forall i :: 0 <= i < |gs| ==> gs[i].items == ItemsOf(posts, gs[i].text)
  {
    var m := Collect(posts);
    var keys := SortKeys(m.keys);
    var gs := Groups(posts);
    CollectSpec(posts);
    forall i | 0 <= i < |gs| ensures gs[i].items == ItemsOf(posts, gs[i].text) {
      assert keys[i] in multiset(m.keys);
      assert gs[i] == Group(keys[i], Some(Expanded), m.items[keys[i]]);
    }
  }

  lemma GroupsCategories(posts: seq<Post>)
    ensures forall c :: c in Texts(Groups(posts)) <==> c in Categories(posts)
  {
    var m := Collect(posts);
    var keys := SortKeys(m.keys);
    CollectSpec(posts);
    GroupsTexts(posts);
    forall c ensures c in keys <==> c in m.keys {
      assert c in keys <==> c in multiset(keys);
      assert c in m.keys <==> c in multiset(m.keys);
    }
  }

  lemma GroupsAscending(posts: seq<Post>)
    ensures var gs := Groups(posts);
            forall i, j :: 0 <= i < j < |gs| ==>
              Text.CodeUnitLe(gs[i].text, gs[j].text) && gs[i].text != gs[j].text
  {
    var m := Collect(posts);
    var keys := SortKeys(m.keys);
    Multisets.DistinctPermutation(m.keys, keys);
    GroupsTexts(posts);
  }

  /**
   * The groups are the categories that occur, each once, in strictly
   * ascending code-unit order, and each group lists the items of its
   * category's posts in post order.
   */
  lemma GroupsSpec(posts: seq<Post>)
    ensures var gs := Groups(posts);
            && (forall i :: 0 <= i < |gs| ==> gs[i].items == ItemsOf(posts, gs[i].text))
            && (forall i, j :: 0 <= i < j < |gs| ==>
                  Text.CodeUnitLe(gs[i].text, gs[j].text) && gs[i].text != gs[j].text)
            && (forall c :: c in Texts(gs) <==> c in Categories(posts))
  {
    GroupsItems(posts);
    GroupsAscending(posts);
    GroupsCategories(posts);
  }

  /** Every post's item appears in the group of its category, and that group is the only one with that text. */
  lemma PostInItsGroup(posts: seq<Post>, i: nat)
    requires i < |posts|
    ensures var gs := Groups(posts);
            exists j :: && 0 <= j < |gs| && gs[j].text == posts[i].category
                        && ItemOf(posts[i]) in gs[j].items
                        && forall k :: 0 <= k < |gs| && gs[k].text == posts[i].category ==> k == j
  {
    var gs := Groups(posts);
    var c := posts[i].category;
    GroupsSpec(posts);
    assert c in Categories(posts);
    assert c in Texts(gs);
    var j :| 0 <= j < |gs| && Texts(gs)[j] == c;
    var pos := Positions(posts, c);
    var x :| 0 <= x < |pos| && pos[x] == i;
    assert ItemsOf(posts, c)[x] == ItemOf(posts[i]);
    forall k | 0 <= k < |gs| && gs[k].text == c ensures k == j {
    }
  }
}
