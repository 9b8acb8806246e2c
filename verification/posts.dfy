/** The slice of WordPress's post store the event code reads and writes: posts by id,
    each with its meta table, where one key may hold several rows. */
module Posts {
  import opened Php

  /** A post's meta: every key with its rows' values, in row order. */
  type Meta = map<string, seq<string>>

  datatype Post = Post(
    postType: string, title: string, content: string, status: string, author: nat, meta: Meta)

  /** The `wp_posts` table and its next AUTO_INCREMENT id. */
  datatype Site = Site(posts: map<nat, Post>, nextId: nat)

  ghost predicate ValidSite(s: Site) {
    s.nextId >= 1 && forall id :: id in s.posts ==> 1 <= id < s.nextId
  }

  /** `get_post_meta($id, $key, true)`: the first row's value, or "" when there is none. */
  function GetMeta(meta: Meta, key: string): (v: string)
    ensures key !in meta ==> v == ""
  {
    if key in meta && |meta[key]| > 0 then meta[key][0] else ""
  }

  /** The two metas hold the same rows for `k`, or both lack it. */
  predicate Agree(a: Meta, b: Meta, k: string) {
    (k in a <==> k in b) && (k in a ==> a[k] == b[k])
  }

  /** `update_post_meta($id, $key, $v)`: a key without rows gets one row; otherwise every
      existing row of the key is overwritten with `$v`. */
  function UpdatePostMeta(meta: Meta, key: string, v: string): (r: Meta)
    ensures key in r && forall k :: k != key ==> Agree(r, meta, k)
    ensures GetMeta(r, key) == v
    ensures |r[key]| >= 1 && forall i :: 0 <= i < |r[key]| ==> r[key][i] == v
    ensures key in meta && |meta[key]| > 0 ==> |r[key]| == |meta[key]|
  {
    if key in meta && |meta[key]| > 0 then meta[key := seq(|meta[key]|, _ => v)] else meta[key := [v]]
  }

  /** `wp_insert_post`: the new post gets the next id. */
  function InsertPost(s: Site, p: Post): (r: (Site, nat))
    requires ValidSite(s)
    ensures ValidSite(r.0)
    ensures r.1 == s.nextId && r.1 !in s.posts && r.0.posts == s.posts[r.1 := p]
  {
    (Site(s.posts[s.nextId := p], s.nextId + 1), s.nextId)
  }

  /** `wp_insert_post` for each post of `ps` in turn. */
  function InsertPosts(s: Site, ps: seq<Post>): (r: Site)
    requires ValidSite(s)
    ensures ValidSite(r) && r.nextId == s.nextId + |ps|
    decreases |ps|
  {
    if ps == [] then s else InsertPosts(InsertPost(s, ps[0]).0, ps[1..])
  }

  /** After the inserts, the ids in use are the old ones and the new block. */
  lemma {:induction false} InsertPostsKeys(s: Site, ps: seq<Post>)
    requires ValidSite(s)
    ensures var r := InsertPosts(s, ps);
      forall id :: id in r.posts <==> id in s.posts || s.nextId <= id < r.nextId
    decreases |ps|
  {
    if ps != [] {
      InsertPostsKeys(InsertPost(s, ps[0]).0, ps[1..]);
    }
  }

  /** The posts already there keep their contents. */
  lemma {:induction false} InsertPostsKeeps(s: Site, ps: seq<Post>)
    requires ValidSite(s)
    ensures var r := InsertPosts(s, ps);
      forall id :: id in s.posts ==> id in r.posts && r.posts[id] == s.posts[id]
    decreases |ps|
  {
    if ps != [] {
      InsertPostsKeeps(InsertPost(s, ps[0]).0, ps[1..]);
    }
  }

  /** The k-th inserted post gets id `nextId + k`. */
  lemma {:induction false} InsertPostsPlaces(s: Site, ps: seq<Post>)
    requires ValidSite(s)
    ensures var r := InsertPosts(s, ps);
      && (forall id :: s.nextId <= id < r.nextId ==> id in r.posts)
      && (forall k :: 0 <= k < |ps| ==> r.posts[s.nextId + k] == ps[k])
    decreases |ps|
  {
    InsertPostsKeys(s, ps);
    if ps != [] {
      var s1 := InsertPost(s, ps[0]).0;
      InsertPostsPlaces(s1, ps[1..]);
      InsertPostsKeeps(s1, ps[1..]);
      var r := InsertPosts(s1, ps[1..]);
      assert r.posts[s.nextId] == ps[0];
      forall k | 1 <= k < |ps|
        ensures r.posts[s.nextId + k] == ps[k]
      {
        assert r.posts[s1.nextId + (k - 1)] == ps[1..][k - 1];
      }
    }
  }

  /** The meta of post `id` with `update_post_meta` calls applied: `m` replaces it, and
      nothing else changes. */
  function SetMeta(s: Site, id: nat, m: Meta): (r: Site)
    requires ValidSite(s) && id in s.posts
    ensures ValidSite(r) && r.nextId == s.nextId && r.posts.Keys == s.posts.Keys
    ensures r.posts[id] == s.posts[id].(meta := m)
    ensures forall j :: j in s.posts && j != id ==> r.posts[j] == s.posts[j]
  {
    Site(s.posts[id := s.posts[id].(meta := m)], s.nextId)
  }

  /** `get_post_meta($id)`: the post's meta, or nothing once the post is gone. */
  function MetaOf(s: Site, id: nat): (m: Meta)
    ensures id !in s.posts ==> m == map[]
    ensures id in s.posts ==> m == s.posts[id].meta
  {
    if id in s.posts then s.posts[id].meta else map[]
  }

  /** `wp_delete_post($id, true)` for every id in `ids`. */
  function DeletePosts(s: Site, ids: set<nat>): (r: Site)
    requires ValidSite(s)
    ensures ValidSite(r)
    ensures r.nextId == s.nextId
    ensures r.posts.Keys == s.posts.Keys - ids
    ensures forall id :: id in r.posts ==> r.posts[id] == s.posts[id]
  {
    Site(map id | id in s.posts && id !in ids :: s.posts[id], s.nextId)
  }

  /** The posts at ids `from` .. `from + n - 1`, in id order. */
  function Block(s: Site, from: nat, n: nat): (b: seq<Post>)
    requires forall id :: from <= id < from + n ==> id in s.posts
    ensures |b| == n && forall k :: 0 <= k < n ==> b[k] == s.posts[from + k]
  {
    seq(n, k requires 0 <= k < n => s.posts[from + k])
  }

  /** Delete the posts `gone`, then insert `ps`: the shape of a regeneration. */
  function Replace(s: Site, gone: set<nat>, ps: seq<Post>): (r: Site)
    requires ValidSite(s)
    ensures ValidSite(r) && r.nextId == s.nextId + |ps|
    ensures forall id :: id in r.posts <==> (id in s.posts && id !in gone) || s.nextId <= id < r.nextId
    ensures forall id :: id in s.posts && id !in gone ==> r.posts[id] == s.posts[id]
    ensures forall k :: 0 <= k < |ps| ==> r.posts[s.nextId + k] == ps[k]
    ensures Block(r, s.nextId, |ps|) == ps
  {
    var d := DeletePosts(s, gone);
    var r := InsertPosts(d, ps);
    InsertPostsKeys(d, ps);
    InsertPostsKeeps(d, ps);
    InsertPostsPlaces(d, ps);
    assert forall id :: id in d.posts <==> id in s.posts && id !in gone;
    assert Block(r, s.nextId, |ps|) == ps;
    r
  }

  /** `Replace` is the deletion followed by the inserts. */
  lemma ReplaceDeletesThenInserts(s: Site, gone: set<nat>, ps: seq<Post>)
    requires ValidSite(s)
    ensures Replace(s, gone, ps) == InsertPosts(DeletePosts(s, gone), ps)
  {
  }

  /** The statuses a `get_posts` query with `'post_status' => 'any'` leaves out. */
  predicate HiddenFromAny(status: string) {
    status == "trash" || status == "auto-draft"
  }

  /** The status `wp_insert_post` stores when it is given no `post_date`: the post is dated
      now, so a scheduled (`future`) status is published at once; any other is kept. */
  function InsertedStatus(status: string): (r: string)
    ensures status == "future" ==> r == "publish"
    ensures status != "future" ==> r == status
    ensures r != "future"
    ensures HiddenFromAny(r) <==> HiddenFromAny(status)
  {
    if status == "future" then "publish" else status
  }

  /** The truthiness PHP gives a string meta value. */
  predicate Truthy(s: string) {
    !Empty(s)
  }
}
