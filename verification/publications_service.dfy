/** The publications service: each operation reads and updates the tables held as fields of
    one store object, step by step, in the order the service issues its database calls. */
module Publications {
  import opened Wrappers
  import opened PublicationTables

  /** The errors the service throws. */
  datatype ServiceError =
    | CustomError(message: string, status: int, name: string)
    | Error(message: string)
      // the database refuses a second publication row with the same primary key
    | UniqueConstraintError

  const PublicationNotFound := CustomError("Not found Publication", 400, "Publication not registered")
  const DeleteNotFound := CustomError("Not found publication", 404, "Not Found")
  const TagNotFound := Error("Tag not found")

  /** A row of a `findAndCount` page: the publication and its derived `votes_count`. */
  datatype Row = Row(id: PublicationId, publication: Publication, votesCount: nat)

  /** What `findById` returns: the publication, its `votes_count` and its images. */
  datatype Detail = Detail(id: PublicationId, publication: Publication, votesCount: nat, images: seq<Image>)

  /** What `addAndDelete` returns: the number of vote rows destroyed, or the vote created. */
  datatype VoteResult = Removed(count: nat) | Created(vote: Vote)

  /** Some element of a non-empty set. */
  method Pick<T>(s: set<T>) returns (x: T)
    requires s != {}
    ensures x in s
  {
    x :| x in s;
  }

  /** The database's paging of a result set that has no order: skips `skip` of the matching
      ids, then returns at most `take` of the rest, or all of the rest when there is no limit. */
  method CutPage(matching: set<PublicationId>, skip: nat, take: Option<nat>)
    returns (ids: seq<PublicationId>)
    ensures forall i :: 0 <= i < |ids| ==> ids[i] in matching
    ensures forall i, j :: 0 <= i < j < |ids| ==> ids[i] != ids[j]
    ensures |ids| == if |matching| <= skip then 0
                     else if take.None? || |matching| - skip <= take.value then |matching| - skip
                     else take.value
    ensures skip == 0 && take.None? ==> forall id :: id in matching ==> id in ids
  {
    var remaining := matching;
    var skipped: nat := 0;
    while skipped < skip && remaining != {}
      invariant remaining <= matching
      invariant |remaining| + skipped == |matching| && skipped <= skip
      invariant skip == 0 ==> remaining == matching
      decreases remaining
    {
      var id := Pick(remaining);
      remaining := remaining - {id};
      skipped := skipped + 1;
    }

    ids := [];
    while remaining != {} && (take.None? || |ids| < take.value)
      invariant remaining <= matching
      invariant |remaining| + skipped + |ids| == |matching|
      invariant take.Some? ==> |ids| <= take.value
      invariant forall i :: 0 <= i < |ids| ==> ids[i] in matching && ids[i] !in remaining
      invariant forall i, j :: 0 <= i < j < |ids| ==> ids[i] != ids[j]
      invariant skip == 0 ==> forall id :: id in matching ==> id in remaining || id in ids
      decreases remaining
    {
      var id := Pick(remaining);
      ids := ids + [id];
      remaining := remaining - {id};
    }
  }

  class PublicationsService {
    var publications: map<PublicationId, Publication>
    var tags: set<TagId>
    var publicationTags: set<TagLink>
    var votes: set<Vote>
    var images: seq<Image>
    /** The keys passed to the object store's `deleteFile`, in call order. */
    var deletedKeys: seq<string>

    ghost predicate Valid()
      reads this
    {
      Consistent(publications, tags, publicationTags, votes, images)
    }

    constructor (publications: map<PublicationId, Publication>, tags: set<TagId>,
                 publicationTags: set<TagLink>, votes: set<Vote>, images: seq<Image>)
      ensures this.publications == publications && this.tags == tags
      ensures this.publicationTags == publicationTags && this.votes == votes
      ensures this.images == images && deletedKeys == []
    {
      this.publications := publications;
      this.tags := tags;
      this.publicationTags := publicationTags;
      this.votes := votes;
      this.images := images;
      deletedKeys := [];
    }

    /** Builds the `where` object of `findAndCount` field by field, one condition per filter
        present; the tag filter is first resolved to the ids of the publications it links. */
    method BuildWhere(q: Query) returns (w: Where)
      ensures forall id, p :: Satisfies(w, id, p) <==> Selects(q, publicationTags, id, p)
    {
      w := Where(None, None, None, None, None);
      if q.tagId.Some? {
        var ids := PublicationsTagged(publicationTags, q.tagId.value);
        w := w.(idIn := Some(ids));
      }
      if q.publicationTypeId.Some? {
        w := w.(publicationTypeId := q.publicationTypeId);
      }
      if q.title != "" {
        w := w.(titleILike := Some(q.title));
      }
      if q.content != "" {
        w := w.(contentILike := Some(q.content));
      }
      if q.description != "" {
        w := w.(descriptionILike := Some(q.description));
      }
    }

    /** Counts the publications a query selects and returns one page of them, each with its
        `votes_count`. Rows come in no particular order. */
    method FindAndCount(q: Query) returns (count: nat, rows: seq<Row>)
      ensures count == |Selected(q, publications, publicationTags)|
      ensures forall i :: 0 <= i < |rows| ==>
        && rows[i].id in Selected(q, publications, publicationTags)
        && rows[i].id in publications
        && rows[i].publication == publications[rows[i].id]
        && rows[i].votesCount == VotesCount(votes, rows[i].id)
      ensures forall i, j :: 0 <= i < j < |rows| ==> rows[i].id != rows[j].id
      ensures |rows| == PageSize(q, count)
      ensures !Paged(q) ==>
        forall id :: id in Selected(q, publications, publicationTags) ==>
          exists i :: 0 <= i < |rows| && rows[i].id == id
    {
      var limit, offset: Option<nat> := None, None;
      if q.limit != 0 && q.offset != 0 {
        limit, offset := Some(q.limit), Some(q.offset);
      }

      var where := BuildWhere(q);

      // findAndCountAll: every matching row is counted, then the page is cut out of them
      var matching := set id | id in publications && Satisfies(where, id, publications[id]);
      assert matching == Selected(q, publications, publicationTags);
      count := |matching|;

      var ids := CutPage(matching, if offset.Some? then offset.value else 0, limit);
      var pubs, vs := publications, votes;
      rows := seq(|ids|, i requires 0 <= i < |ids| && ids[i] in pubs =>
                  Row(ids[i], pubs[ids[i]], VotesCount(vs, ids[i])));
      forall id | !Paged(q) && id in matching
        ensures exists i :: 0 <= i < |rows| && rows[i].id == id
      {
        var i :| 0 <= i < |ids| && ids[i] == id;
        assert rows[i].id == id;
      }
    }

    /** Looks a publication up by primary key, with its `votes_count` and its images. */
    method FindById(id: PublicationId) returns (r: Result<Detail, ServiceError>)
      ensures id !in publications <==> r == Failure(PublicationNotFound)
      ensures id in publications ==>
        && r.Success?
        && r.value.id == id
        && r.value.publication == publications[id]
        && r.value.votesCount == |set v | v in votes && v.publicationId == id|
        && (forall img :: img in r.value.images <==> img in images && img.publicationId == id)
    {
      if id !in publications {
        return Failure(PublicationNotFound);
      }
      r := Success(Detail(id, publications[id], VotesCount(votes, id), ImagesOf(images, id)));
    }

    /** Inserts a publication and, when tag ids are given, sets its tags to those of them that
        exist. Inside one transaction: if none of them exists, the insert is rolled back. */
    method CreatePublication(id: PublicationId, data: Publication, tagIds: Option<seq<TagId>>)
      returns (r: Result<Publication, ServiceError>)
      modifies this
      ensures tags == old(tags) && votes == old(votes) && images == old(images)
      ensures deletedKeys == old(deletedKeys)
      ensures id in old(publications) ==>
        && r == Failure(UniqueConstraintError)
        && publications == old(publications) && publicationTags == old(publicationTags)
      ensures id !in old(publications) && (tagIds.None? || tagIds.value == []) ==>
        && r == Success(data)
        && publications == old(publications)[id := data]
        && publicationTags == old(publicationTags)
      ensures id !in old(publications) && tagIds.Some? && tagIds.value != [] ==>
        if forall t :: t in tagIds.value ==> t !in old(tags) then
          && r == Failure(TagNotFound)
          && publications == old(publications) && publicationTags == old(publicationTags)
        else
          && r == Success(data)
          && publications == old(publications)[id := data]
          && (forall t :: TagLink(id, t) in publicationTags <==> t in tagIds.value && t in tags)
          && (forall l: TagLink :: l.publicationId != id ==> (l in publicationTags <==> l in old(publicationTags)))
      ensures r.Success? ==> |publications| == |old(publications)| + 1
      ensures old(Valid()) ==> Valid()
    {
      // the transaction: what a rollback restores
      var savedPublications, savedTags := publications, publicationTags;

      if id in publications {
        return Failure(UniqueConstraintError);
      }
      publications := publications[id := data];

      if tagIds.Some? && |tagIds.value| > 0 {
        var found := ExistingTags(tags, tagIds.value);
        if found != {} {
          // setTags: the publication's links become exactly the found tags
          publicationTags := (set l | l in publicationTags && l.publicationId != id)
                             + (set t | t in found :: TagLink(id, t));
        } else {
          publications, publicationTags := savedPublications, savedTags;
          return Failure(TagNotFound);
        }
      }
      r := Success(data);
    }

    /** Deletes a publication with its tag links, its votes and its images, deleting each
        image's file from the object store first. */
    method Delete(id: PublicationId) returns (r: Outcome<ServiceError>)
      modifies this
      ensures id !in old(publications) ==>
        && r == Fail(DeleteNotFound)
        && publications == old(publications) && tags == old(tags)
        && publicationTags == old(publicationTags) && votes == old(votes)
        && images == old(images) && deletedKeys == old(deletedKeys)
      ensures id in old(publications) ==>
        && r == Pass
        && publications == old(publications) - {id}
        && tags == old(tags)
        && publicationTags == (set l | l in old(publicationTags) && l.publicationId != id)
        && votes == (set v | v in old(votes) && v.publicationId != id)
        && images == ImagesNotOf(old(images), id)
        && deletedKeys == old(deletedKeys) + Keys(ImagesOf(old(images), id))
      ensures id in old(publications) ==>
        && (forall l :: l in publicationTags ==> l.publicationId != id)
        && (forall v :: v in votes ==> v.publicationId != id)
        && (forall img :: img in images ==> img.publicationId != id)
      ensures old(Valid()) ==> Valid()
    {
      if id !in publications {
        return Fail(DeleteNotFound);
      }
      publicationTags := set l | l in publicationTags && l.publicationId != id;
      votes := set v | v in votes && v.publicationId != id;

      var found := ImagesOf(images, id);
      ghost var rows := images;
      DeleteImages(id, found);
      OrdersOfImagesOf(rows, id);
      WithoutEveryOrder(rows, id, OrdersOf(found));

      publications := publications - {id};
      r := Pass;
    }

    /** For each image row fetched, deletes its file from the object store, then removes the
        row. The service issues these calls concurrently; here they run one after the other. */
    method DeleteImages(id: PublicationId, found: seq<Image>)
      modifies this`images, this`deletedKeys
      ensures images == Without(old(images), id, OrdersOf(found))
      ensures deletedKeys == old(deletedKeys) + Keys(found)
    {
      WithoutNone(images, id);
      var i := 0;
      assert OrdersOf(found[..0]) == {};
      while i < |found|
        invariant 0 <= i <= |found|
        invariant images == Without(old(images), id, OrdersOf(found[..i]))
        invariant deletedKeys == old(deletedKeys) + Keys(found[..i])
      {
        RemoveAfterWithout(old(images), id, OrdersOf(found[..i]), found[i].order);
        OrdersOfSnoc(found, i);
        KeysSnoc(found, i);
        deletedKeys := deletedKeys + [found[i].imageUrl];
        images := RemoveImage(images, id, found[i].order);
        i := i + 1;
      }
      assert found[..i] == found;
    }

    /** Toggles `userId`'s vote for `publicationId`: destroys it if present, creates it if not. */
    method AddAndDelete(publicationId: PublicationId, userId: UserId) returns (r: VoteResult)
      modifies this`votes
      ensures votes == Toggled(old(votes), Vote(userId, publicationId))
      ensures Vote(userId, publicationId) in old(votes) ==> r == Removed(1)
      ensures Vote(userId, publicationId) !in old(votes) ==> r == Created(Vote(userId, publicationId))
      ensures old(Valid()) && publicationId in publications ==> Valid()
    {
      var vote := Vote(userId, publicationId);
      if vote in votes {
        votes := votes - {vote};
        r := Removed(1);
      } else {
        votes := votes + {vote};
        r := Created(vote);
      }
    }
  }
}
