/** The rows of the tables the publications service reads and writes, the meaning of a
    `findAndCount` query, and the pure facts about them that the service methods rely on. */
module PublicationTables {
  import opened Wrappers

  type PublicationId = int
  type TagId = int
  type UserId = int

  /** A row of the publications table, with the columns `createPublication` fills in. */
  datatype Publication = Publication(
    title: string,
    description: string,
    content: string,
    cityId: int,
    referenceLink: string,
    userId: UserId,
    publicationTypeId: int)

  /** A row of the publications-tags association table. */
  datatype TagLink = TagLink(publicationId: PublicationId, tagId: TagId)

  /** A row of the votes table: `userId` has voted for `publicationId`. */
  datatype Vote = Vote(userId: UserId, publicationId: PublicationId)

  /** A row of the publication-images table; `imageUrl` is the object-store key of the file. */
  datatype Image = Image(publicationId: PublicationId, order: int, imageUrl: string)

  /** Referential integrity of the tables: every tag link joins a stored publication to an
      existing tag, and every vote and image row points at a stored publication. */
  ghost predicate Consistent(
    publications: map<PublicationId, Publication>, tags: set<TagId>,
    links: set<TagLink>, votes: set<Vote>, images: seq<Image>)
  {
    && (forall l :: l in links ==> l.publicationId in publications && l.tagId in tags)
    && (forall v :: v in votes ==> v.publicationId in publications)
    && (forall img :: img in images ==> img.publicationId in publications)
  }

  // ---------------------------------------------------------------------------------------
  // Queries

  /** The query parameters `findAndCount` reads. A number 0 stands both for an absent and for
      a zero parameter, and "" both for an absent and for an empty one: the service tests each
      parameter for truthiness, so it treats the two alike. */
  datatype Query = Query(
    limit: nat,
    offset: nat,
    tagId: Option<TagId>,
    publicationTypeId: Option<int>,
    title: string,
    content: string,
    description: string)

  /** Limit and offset are applied only when both are truthy. */
  predicate Paged(q: Query) {
    q.limit != 0 && q.offset != 0
  }

  /** How many of `count` matching rows a query returns. */
  function PageSize(q: Query, count: nat): (n: nat)
    ensures n <= count
    ensures Paged(q) ==> n <= q.limit
    ensures !Paged(q) ==> n == count
  {
    if !Paged(q) then count
    else if count <= q.offset then 0
    else if count - q.offset <= q.limit then count - q.offset
    else q.limit
  }

  function LowerChar(c: char): char {
    if 'A' <= c <= 'Z' then (c as int + 32) as char else c
  }

  /** ASCII lower-casing, the case folding an `ILIKE` comparison applies. */
  function Lower(s: string): (r: string)
    ensures |r| == |s|
  {
    seq(|s|, i requires 0 <= i < |s| => LowerChar(s[i]))
  }

  predicate OccursAt(needle: string, hay: string, k: int) {
    0 <= k && k + |needle| <= |hay| && hay[k..k + |needle|] == needle
  }

  /** `value ILIKE '%pattern%'`, with the pattern read as plain text. */
  predicate ILikeContains(value: string, pattern: string) {
    exists k :: 0 <= k <= |value| && OccursAt(Lower(pattern), Lower(value), k)
  }

  lemma LowerIdempotent(s: string)
    ensures Lower(Lower(s)) == Lower(s)
  {
  }

  /** The match ignores case on both sides: lower-casing the pattern or the value changes
      nothing. */
  lemma {:induction false} ILikeIgnoresPatternCase(value: string, pattern: string)
    ensures ILikeContains(value, Lower(pattern)) == ILikeContains(value, pattern)
    ensures ILikeContains(Lower(value), pattern) == ILikeContains(value, pattern)
  {
    LowerIdempotent(pattern);
    LowerIdempotent(value);
  }

  /** An empty pattern matches every value, and every value matches itself. */
  lemma ILikeTrivialPatterns(value: string)
    ensures ILikeContains(value, "")
    ensures ILikeContains(value, value)
  {
    assert OccursAt(Lower(""), Lower(value), 0);
    assert OccursAt(Lower(value), Lower(value), 0);
  }

  /** The publications a query selects, stated directly from its filters: every filter that
      is present holds, and an absent filter imposes nothing. */
  predicate Selects(q: Query, links: set<TagLink>, id: PublicationId, p: Publication) {
    && (q.tagId.Some? ==> TagLink(id, q.tagId.value) in links)
    && (q.publicationTypeId.Some? ==> p.publicationTypeId == q.publicationTypeId.value)
    && (q.title != "" ==> ILikeContains(p.title, q.title))
    && (q.content != "" ==> ILikeContains(p.content, q.content))
    && (q.description != "" ==> ILikeContains(p.description, q.description))
  }

  function Selected(q: Query, publications: map<PublicationId, Publication>, links: set<TagLink>)
    : set<PublicationId>
  {
    set id | id in publications && Selects(q, links, id, publications[id])
  }

  /** The `where` object `findAndCount` builds: one optional condition per column. */
  datatype Where = Where(
    idIn: Option<set<PublicationId>>,
    publicationTypeId: Option<int>,
    titleILike: Option<string>,
    contentILike: Option<string>,
    descriptionILike: Option<string>)

  predicate Satisfies(w: Where, id: PublicationId, p: Publication) {
    && (w.idIn.Some? ==> id in w.idIn.value)
    && (w.publicationTypeId.Some? ==> p.publicationTypeId == w.publicationTypeId.value)
    && (w.titleILike.Some? ==> ILikeContains(p.title, w.titleILike.value))
    && (w.contentILike.Some? ==> ILikeContains(p.content, w.contentILike.value))
    && (w.descriptionILike.Some? ==> ILikeContains(p.description, w.descriptionILike.value))
  }

  /** First step of the tag filter: the ids of the publications linked to `tagId`. */
  function PublicationsTagged(links: set<TagLink>, tagId: TagId): (ids: set<PublicationId>)
    ensures forall id :: id in ids <==> TagLink(id, tagId) in links
  {
    var ids := set l | l in links && l.tagId == tagId :: l.publicationId;
    assert forall id :: TagLink(id, tagId) in links ==> id in ids by {
      forall id | TagLink(id, tagId) in links ensures id in ids {
        var l := TagLink(id, tagId);
        assert l in links && l.tagId == tagId;
      }
    }
    ids
  }

  /** The requested tag ids that exist as tags. It is empty exactly when none of them exists. */
  function ExistingTags(tags: set<TagId>, tagIds: seq<TagId>): (found: set<TagId>)
    ensures forall t :: t in found <==> t in tagIds && t in tags
    ensures found == {} <==> forall t :: t in tagIds ==> t !in tags
  {
    var found := set t | t in tagIds && t in tags;
    assert forall t :: t in tagIds && t in tags ==> t in found;
    assert found == {} ==> forall t :: t in tagIds ==> t !in tags;
    assert (forall t :: t in tagIds ==> t !in tags) ==> found == {};
    found
  }

  // ---------------------------------------------------------------------------------------
  // Votes

  function VotesFor(votes: set<Vote>, id: PublicationId): set<Vote> {
    set v | v in votes && v.publicationId == id
  }

  /** `votes_count`: the number of vote rows that reference the publication. */
  function VotesCount(votes: set<Vote>, id: PublicationId): nat {
    |VotesFor(votes, id)|
  }

  /** The vote table after one toggle of `v`: present becomes absent, absent becomes present,
      and every other vote stays as it was. */
  function Toggled(votes: set<Vote>, v: Vote): (r: set<Vote>)
    ensures v in r <==> v !in votes
    ensures forall w :: w != v ==> (w in r <==> w in votes)
  {
    if v in votes then votes - {v} else votes + {v}
  }

  /** Two toggles of the same vote restore the vote table. */
  lemma ToggledTwice(votes: set<Vote>, v: Vote)
    ensures Toggled(Toggled(votes, v), v) == votes
  {
  }

  /** A toggle moves the toggled publication's `votes_count` by one and no other count. */
  lemma VotesCountAfterToggle(votes: set<Vote>, v: Vote, id: PublicationId)
    ensures VotesCount(Toggled(votes, v), id) ==
      if v.publicationId != id then VotesCount(votes, id)
      else if v in votes then VotesCount(votes, id) - 1
      else VotesCount(votes, id) + 1
  {
    var r := Toggled(votes, v);
    if v.publicationId != id {
      assert VotesFor(r, id) == VotesFor(votes, id);
    } else if v in votes {
      assert VotesFor(r, id) == VotesFor(votes, id) - {v};
    } else {
      assert VotesFor(r, id) == VotesFor(votes, id) + {v};
    }
  }

  // ---------------------------------------------------------------------------------------
  // Images

  /** The image rows of one publication, in table order, each as often as it occurs. */
  function ImagesOf(rows: seq<Image>, id: PublicationId): (r: seq<Image>)
    ensures forall img :: img in r <==> img in rows && img.publicationId == id
  {
    if rows == [] then []
    else (if rows[0].publicationId == id then [rows[0]] else []) + ImagesOf(rows[1..], id)
  }

  /** The image rows of every other publication, in table order, each as often as it occurs. */
  function ImagesNotOf(rows: seq<Image>, id: PublicationId): (r: seq<Image>)
    ensures forall img :: img in r <==> img in rows && img.publicationId != id
  {
    if rows == [] then []
    else (if rows[0].publicationId != id then [rows[0]] else []) + ImagesNotOf(rows[1..], id)
  }

  /** `ImagesOf` keeps every row of the publication as often as the table holds it, and no
      other row; `ImagesNotOf` keeps exactly the rest. */
  lemma {:induction false} ImagesSplitCounts(rows: seq<Image>, id: PublicationId, img: Image)
    ensures multiset(ImagesOf(rows, id))[img] ==
      if img.publicationId == id then multiset(rows)[img] else 0
    ensures multiset(ImagesNotOf(rows, id))[img] ==
      if img.publicationId != id then multiset(rows)[img] else 0
  {
    if rows != [] {
      ImagesSplitCounts(rows[1..], id, img);
      assert rows == [rows[0]] + rows[1..];
      assert multiset(rows) == multiset([rows[0]]) + multiset(rows[1..]);
    }
  }

  /** The object-store keys of image rows, in the same order. */
  function Keys(rows: seq<Image>): seq<string> {
    seq(|rows|, i requires 0 <= i < |rows| => rows[i].imageUrl)
  }

  lemma KeysSnoc(rows: seq<Image>, i: nat)
    requires i < |rows|
    ensures Keys(rows[..i + 1]) == Keys(rows[..i]) + [rows[i].imageUrl]
  {
    assert forall k :: 0 <= k < i ==> Keys(rows[..i + 1])[k] == Keys(rows[..i])[k];
  }

  /** The rows left once the image of publication `pid` at each order in `orders` is removed. */
  function Without(rows: seq<Image>, pid: PublicationId, orders: set<int>): (r: seq<Image>)
    ensures forall img :: img in r <==> img in rows && !(img.publicationId == pid && img.order in orders)
  {
    if rows == [] then []
    else
      (if rows[0].publicationId == pid && rows[0].order in orders then [] else [rows[0]])
      + Without(rows[1..], pid, orders)
  }

  /** The orders of a list of image rows. */
  function OrdersOf(rows: seq<Image>): set<int> {
    set k | 0 <= k < |rows| :: rows[k].order
  }

  lemma OrdersOfSnoc(rows: seq<Image>, i: nat)
    requires i < |rows|
    ensures OrdersOf(rows[..i + 1]) == OrdersOf(rows[..i]) + {rows[i].order}
  {
  }

  /** Every image of publication `id` has its order among those of `ImagesOf(rows, id)`. */
  lemma OrdersOfImagesOf(rows: seq<Image>, id: PublicationId)
    ensures forall img :: img in rows && img.publicationId == id ==> img.order in OrdersOf(ImagesOf(rows, id))
  {
  }

  /** `removeImage(pid, order)`: drops the image row with that publication and order. */
  function RemoveImage(rows: seq<Image>, pid: PublicationId, order: int): seq<Image> {
    Without(rows, pid, {order})
  }

  lemma {:induction false} WithoutNone(rows: seq<Image>, pid: PublicationId)
    ensures Without(rows, pid, {}) == rows
  {
    if rows != [] {
      WithoutNone(rows[1..], pid);
      assert rows == [rows[0]] + rows[1..];
    }
  }

  /** Removing one more order after a batch is the same as removing the larger batch. */
  lemma {:induction false} RemoveAfterWithout(rows: seq<Image>, pid: PublicationId, orders: set<int>, order: int)
    ensures RemoveImage(Without(rows, pid, orders), pid, order) == Without(rows, pid, orders + {order})
  {
    if rows != [] {
      RemoveAfterWithout(rows[1..], pid, orders, order);
      var w := Without(rows, pid, orders);
      var w' := Without(rows, pid, orders + {order});
      if rows[0].publicationId == pid && rows[0].order in orders {
        assert w == Without(rows[1..], pid, orders);
        assert w' == Without(rows[1..], pid, orders + {order});
      } else {
        assert w == [rows[0]] + Without(rows[1..], pid, orders);
        assert w[0] == rows[0] && w[1..] == Without(rows[1..], pid, orders);
      }
    }
  }

  /** Once every order of `pid`'s images has been removed, exactly the other publications'
      rows remain, in their original order. */
  lemma {:induction false} WithoutEveryOrder(rows: seq<Image>, pid: PublicationId, orders: set<int>)
    requires forall img :: img in rows && img.publicationId == pid ==> img.order in orders
    ensures Without(rows, pid, orders) == ImagesNotOf(rows, pid)
  {
    if rows != [] {
      assert forall img :: img in rows[1..] ==> img in rows;
      WithoutEveryOrder(rows[1..], pid, orders);
    }
  }
}
