# Publications store and user-edit validation, modelled in Dafny

This project models two parts of a REST backend for a publications and voting platform.

**The publications service** (`services/publications.service.js`) runs five operations over a
relational store:

- `findAndCount` filters and pages publications.
- `findById` looks one up.
- `createPublication` inserts one and attaches its tags, inside a transaction.
- `delete` removes a publication with its tag links, votes and images, and deletes each
  image's file from the object store.
- `addAndDelete` toggles a user's vote.

The store is the class `Publications.PublicationsService`. Its fields are the tables:

- a map of publications;
- the set of tag ids;
- the set of publication-tag links;
- the set of votes;
- the image rows, in table order;
- the log of object-store keys passed to `deleteFile`.

Each operation is a method that updates those fields in the order the service issues its
database calls. The meaning of a query, the vote count and the image bookkeeping are pure
functions in `PublicationTables`, with lemmas about them. `Consistent` states referential
integrity: every link, vote and image row points at a stored publication, and every link at an
existing tag. `createPublication` and `delete` keep it.

**The users controller** (`controllers/users.controller.js`) is modelled as pure functions:

- `PutUser` is the authorization and field check of `putUser`. It returns the reply and
  whether `updateUser` was called.
- `GetUserScope` is the view choice of `getUserById`.

`scenarios.dfy` replays concrete call sequences against the class and checks the resulting
tables from the contracts alone. For example, it creates a publication with one known and one
unknown tag, toggles a vote twice, and deletes a publication that has two images.

Files: `wrappers.dfy` (Option, Result, Outcome), `publication_tables.dfy`,
`publications_service.dfy`, `users_controller.dfy`, `scenarios.dfy`.

Notes on the code:

- `findById` fails with status 400 ("Not found Publication"). `delete` fails with 404.
- The vote toggle has no lock.
- In `delete`, the tag-link and vote deletions and the image lookup
  (services/publications.service.js:181-201) are not bound to its transaction. Only the final
  `destroy` of the publication is. The model therefore claims all-or-nothing behaviour only for
  `createPublication`.

## Model

| member | source | states |
|---|---|---|
| `Publications.PublicationsService.FindAndCount` | services/publications.service.js:17-85 | The count is the number of publications that satisfy every filter present (`Selected`), not the page size. Each row is a distinct selected publication with its stored record and a `votes_count` equal to its number of vote rows. The page has `PageSize` rows. Without paging, every selected publication is returned. |
| `Publications.PublicationsService.BuildWhere` | services/publications.service.js:48-76 | The `where` object built field by field accepts a publication exactly when the query's filters (`Selects`) hold: linked to the tag, equal type, and title, content and description each containing their query case-insensitively. An absent filter imposes nothing. |
| `PublicationTables.PublicationsTagged` | services/publications.service.js:48-55 | The two-step tag filter's id set holds exactly the publications that have a link to the tag. |
| `PublicationTables.PageSize` | services/publications.service.js:42-46 | Paging applies only when limit and offset are both non-zero. Otherwise all matches are returned. A page never exceeds the limit or the match count. |
| `Publications.CutPage` | services/publications.service.js:80-82 | The store's limit/offset on an unordered result: distinct matching ids. The length is the matches after skipping `skip`, capped by `take`. With no skip and no limit, every match is included. |
| `PublicationTables.ILikeIgnoresPatternCase` | services/publications.service.js:63-76 | The substring filters ignore case on both sides: lower-casing the query, or the stored value, does not change whether it matches. |
| `PublicationTables.ILikeTrivialPatterns` | services/publications.service.js:63-66 | A title filter always accepts a title equal to the query, and an empty pattern matches every value. |
| `Publications.PublicationsService.FindById` | services/publications.service.js:87-132 | A missing id fails with "Not found Publication" (status 400), and only a missing id fails. Otherwise the result is that publication, a `votes_count` equal to the number of its vote rows, and exactly its image rows. |
| `PublicationTables.ExistingTags` | services/publications.service.js:151-163 | The tags found for a request are the requested ids that exist as tags. The set is empty exactly when none of the requested ids exists. |
| `Publications.PublicationsService.CreatePublication` | services/publications.service.js:134-172 | A duplicate id fails and changes nothing. With no tag ids, or an empty list, exactly one publication is added and the links are unchanged. If some requested tag exists, the new publication's tags are exactly the requested ids that exist, and other publications' links are unchanged. If none exists, it fails with "Tag not found" and rolls back, leaving no new publication and no new link. Votes, images, tags and the key log are untouched. Referential integrity is kept. |
| `Publications.PublicationsService.Delete` | services/publications.service.js:174-216 | A missing id fails with "Not found publication" (404) and changes nothing. Otherwise the publication is gone and no tag link, vote or image row references it. Rows of other publications are unchanged, images keeping their order. One `deleteFile` is issued per image key of the publication, in table order. Tags are untouched. Referential integrity is kept. |
| `Publications.PublicationsService.DeleteImages` | services/publications.service.js:198-208 | For each fetched image row: its key is appended to the object-store delete log, and the row with that publication and order is removed. |
| `PublicationTables.ImagesOf` | services/publications.service.js:198-201 | The images fetched for a publication are exactly its image rows. |
| `PublicationTables.ImagesNotOf` | services/publications.service.js:198-207 | The rows left after the cascade are exactly the image rows of other publications. |
| `PublicationTables.ImagesSplitCounts` | services/publications.service.js:198-207 | Counted with multiplicity, the fetched rows hold each image row of the publication exactly as often as the table does, and no other row. The rows left hold each other publication's row exactly as often, and none of this one's. So `delete` issues one `deleteFile` per image row. |
| `PublicationTables.Without` | services/publications.service.js:205 | Removing images by (publication, order) drops exactly the rows of that publication whose order was removed. |
| `PublicationTables.RemoveAfterWithout` | services/publications.service.js:203-207 | Removing one more image after a batch of removals equals removing the enlarged batch. |
| `PublicationTables.WithoutEveryOrder` | services/publications.service.js:203-207 | Once every image order of the publication is removed, exactly the other publications' rows remain, in their original order. |
| `Publications.PublicationsService.AddAndDelete` | services/publications.service.js:218-245 | The (user, publication) vote flips: a present vote is destroyed and the result is one destroyed row; an absent vote is created and returned. No other vote changes. Referential integrity is kept when the publication exists. |
| `PublicationTables.Toggled` | services/publications.service.js:221-240 | A toggle makes the toggled vote present exactly when it was absent, and leaves every other vote as it was. |
| `PublicationTables.ToggledTwice` | services/publications.service.js:218-245 | Two toggles of the same vote restore the vote table. |
| `PublicationTables.VotesCountAfterToggle` | services/publications.service.js:29-37 | A toggle moves the toggled publication's `votes_count` up or down by one and changes no other publication's count. |
| `UsersController.GetUserScope` | controllers/users.controller.js:29-35 | The privileged view (scope 1) is requested exactly when the caller is the same user or has role 2. Otherwise no scope is passed. |
| `UsersController.PutUser` | controllers/users.controller.js:42-98 | `updateUser` is called exactly when the caller is the same user. Another caller gets 401 "Unauthorized". "Success Update" is the reply exactly when: the caller is the same user, the update did not throw, no body key is non-editable, and some body key is editable. |
| `UsersController.FilterMembers` | controllers/users.controller.js:74-76 | The keys the filter keeps are exactly the body keys in the list. The result is empty exactly when no body key is in the list. |
| `UsersController.FilterAppend` | controllers/users.controller.js:86-88 | Filtering keeps body-key order: it distributes over concatenation. |
| `UsersController.JoinSnoc` | controllers/users.controller.js:79-81 | Joining with ", " puts the separator between consecutive keys. |
| `UsersController.NonEditableRejected` | controllers/users.controller.js:74-83 | A body with a non-editable key is answered 400. The message is the fixed prefix followed by the non-editable body keys, in body order, joined by ", ". This holds even when editable keys are also present, and the update has already been made. |
| `UsersController.InvalidFieldsMessageGrows` | controllers/users.controller.js:77-83 | Appending another non-editable key to such a body appends ", " and that key to the error message. |
| `UsersController.NoEditableRejected` | controllers/users.controller.js:85-93 | A body with neither non-editable nor editable keys is answered 400 "You must provide at least one valid field to edit". |
| `UsersController.IgnoredKeyIsIgnored` | controllers/users.controller.js:74-94 | A key in neither list, anywhere in the body, does not change the reply. |

## Left out

- Sequelize query construction is not modelled: scopes, the included user, city, type and image associations, selected attributes, `distinct`, and the SQL cast. Rows carry only the publication record, its id and its `votes_count`.
- The vote count subquery names the column `publications_id`, while the destroy calls use `publication_id`. Both are taken as the same foreign key.
- Database failures are not modelled, except the primary-key clash on insert in `createPublication` (`UniqueConstraintError`). Connection loss, other constraint violations and foreign keys are out. In particular, a vote for a missing publication is accepted, as the service itself does not check.
- `Publications.PublicationsService.Delete`: does not claim all-or-nothing behaviour, and models only the not-found path and the success path. In the code, the tag, vote and image calls are not bound to the transaction, and an inner failure rolls back twice.
- `Publications.PublicationsService.AddAndDelete`: the vote rows are taken to be a set, with no repeated (user, publication) pair, so the destroy count it returns is always 1. The service has no unique constraint on the pair, and the unlocked race can insert a second copy. Over such a table, `destroy` would remove every copy and return their number, and `votes_count` would count every copy; `VotesCount` counts distinct pairs.
- Failures of `deleteFile` and `removeImage` are not modelled, so neither is what a failed image deletion leaves behind.
- The object store is reduced to the log of keys passed to `deleteFile`.
- `removeImage` belongs to the images service, which is not part of this model. It is taken to remove the image row with the given publication and order, and nothing else.
- Concurrency is not modelled. This covers the unlocked check-then-act race in `addAndDelete` and interleavings between requests. The concurrent image deletions of `Promise.all` run one after the other.
- `ILIKE` pattern characters in the query (`%`, `_`) are matched as plain text. Case folding is ASCII only. NULL column values are not modelled.
- Result rows have no order. Which matches fall on a page is left open.
- Query parameters are reduced to their truthiness. A zero limit or offset equals an absent one, and an empty string equals an absent filter. A present tag id or type id always filters, because it arrives as a non-empty string.
- `getUsers`, the pagination helpers and the internals of the users and profiles services are not part of this model.
- Response serialisation is not modelled. `updateUser` is an opaque call: whether it throws is a parameter, and a throw hands the error to `next`.
- `Object.keys` places integer-like keys first. The model takes the body keys in the order given.
