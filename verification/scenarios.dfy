/** Client code that replays concrete sequences of service calls and checks, from the
    methods' contracts alone, what the tables hold afterwards. */
module Scenarios {
  import opened Wrappers
  import opened PublicationTables
  import opened Publications

  const Sample := Publication("Plaza", "A square", "Benches needed", 1, "", 7, 1)

  /** Creating a publication with one existing and one unknown tag attaches only the first. */
  method CreateWithUnknownTag() {
    var store := new PublicationsService(map[], {1}, {}, {}, []);
    var r := store.CreatePublication(10, Sample, Some([1, 9]));
    assert r == Success(Sample);
    assert 10 in store.publications;
    assert TagLink(10, 1) in store.publicationTags;
    assert TagLink(10, 9) !in store.publicationTags;
  }

  /** Creating a publication whose tags all are unknown leaves no publication behind. */
  method CreateWithOnlyUnknownTags() {
    var store := new PublicationsService(map[], {1}, {}, {}, []);
    var r := store.CreatePublication(10, Sample, Some([8, 9]));
    assert r == Failure(TagNotFound);
    assert store.publications == map[];
    assert store.publicationTags == {};
  }

  /** Deleting an unknown id fails with not-found and touches nothing. */
  method DeleteUnknown() {
    var store := new PublicationsService(map[1 := Sample], {}, {}, {Vote(3, 1)}, []);
    var r := store.Delete(99999);
    assert r == Fail(DeleteNotFound);
    assert store.publications == map[1 := Sample] && store.votes == {Vote(3, 1)};
  }

  /** Toggling the same vote twice restores the vote table and the count. */
  method ToggleTwice() {
    var store := new PublicationsService(map[1 := Sample], {}, {}, {Vote(4, 1)}, []);
    var before := store.votes;
    var first := store.AddAndDelete(1, 3);
    assert first == Created(Vote(3, 1));
    var second := store.AddAndDelete(1, 3);
    assert second == Removed(1);
    ToggledTwice(before, Vote(3, 1));
    assert store.votes == before;
    assert VotesCount(store.votes, 1) == VotesCount(before, 1);
  }

  /** Deleting a publication with two images issues two object-store deletes and leaves no
      image row of it. */
  method DeleteWithTwoImages() {
    var a, b := Image(1, 0, "k0"), Image(1, 1, "k1");
    var other := Image(2, 0, "k2");
    var store := new PublicationsService(map[1 := Sample, 2 := Sample], {}, {}, {}, [a, other, b]);
    var r := store.Delete(1);
    assert r == Pass;
    var rows := [a, other, b];
    assert rows[1..] == [other, b] && rows[1..][1..] == [b] && rows[1..][1..][1..] == [];
    assert ImagesOf([b], 1) == [b] && ImagesOf([other, b], 1) == [b];
    assert ImagesOf(rows, 1) == [a, b];
    assert store.deletedKeys == ["k0", "k1"];
    assert ImagesNotOf([b], 1) == [];
    assert ImagesNotOf([other, b], 1) == [other] + ImagesNotOf([b], 1);
    assert ImagesNotOf(rows, 1) == [other];
    assert store.images == [other];
  }
}
