# Forum backend core in Dafny

This project models the domain logic of an Express/Sequelize backend for an
exam-preparation forum. Users write posts (tied to a school) and questions
(tied to a category). Both kinds of content form reply forests through
`parent_id`. Users like posts and questions, and a denormalised `likes_count`
on each row tracks the likes. Categories form a hierarchy, and they are linked
to schools through SchoolCategory rows. An admin area offers CRUD over every
table and a sign-in check.

The relational store is a set of tables (`Tables.Table`). Each is a sequence
of rows in ascending, auto-increment id order, plus the next id. Join tables
hold `(content, user)` pairs. `Schema.Integrity` states the database-wide
invariant:
- every table is well formed;
- every foreign key resolves;
- join pairs and `(category, school)` links are unique;
- e-mails are unique.

`Storage.Store` is a class holding one field per table. The handlers that
change state are methods on a `Store`:
- the like toggle;
- every admin create, update and delete.

Each of them keeps `Integrity` and states its exact new state. Read-only
routes are functions over the database value `Schema.Db`.

Modules follow the program's structure:
- `Records` covers the model validators, defaults and hooks of `models/`.
- `Cascade` covers the delete policies of `migrations/`.
- `Threads`, `Catalog`, `Home` and `Likes` cover the public routes.
- `Admin…` covers the routers under `routes/admin/`.
- `Paging` and `Queries` cover the shared page arithmetic and `findAll`
  ordering.

## Model

| member | source | states |
|---|---|---|
| Tables.Find | routes/admin/schools.js:145-154 | `findByPk` finds a row exactly when its id is in the table, and the row found is the stored one |
| Tables.Insert | migrations/20240907101401-create-user.js:6-11 | an auto-increment insert appends the row under a fresh id, adds exactly that id and keeps the table well formed |
| Tables.Update | routes/admin/schools.js:101 | an update by id replaces that row's value only; ids, order and every other row stay as they were |
| Tables.DeleteIds | routes/admin/posts.js:118-126 | `destroy` keeps exactly the rows whose id is not deleted, and the id set shrinks by exactly the deleted ids |
| Tables.FindUnique | migrations/20240907101401-create-user.js:6-11 | in an ascending table, looking up any stored row's id returns that row |
| Queries.Select | routes/posts.js:18-26 | a `where` filter keeps exactly the rows that satisfy it, in their order |
| Queries.NewestFirst | routes/posts.js:18-26 | `order: [['id','DESC']]` yields the same rows in strictly descending id order |
| Queries.CountIsDistinctIds | routes/posts.js:28-36 | `count` over an ascending table equals the number of distinct ids |
| Paging.PageParam | routes/posts.js:14-15 | a page parameter is the absolute value of a truthy input, or else the default; it is never below 1 |
| Paging.ParsePage | routes/posts.js:14-16 | `currentPage` and `pageSize` are at least 1; `-3` gives page 3 and a size of `0` gives the default 10 |
| Paging.Window | routes/posts.js:16-26 | `limit`/`offset` returns at most `limit` rows, and each one is the row at its offset in the full list |
| Paging.Paginate | routes/posts.js:28-36 | `total` is the whole list's length whatever the page; the page is exactly the list's rows from offset `(currentPage-1)*pageSize` on, `pageSize` of them or as many as remain, in list order |
| Paging.PageOfUnique | routes/posts.js:28-36 | a page is determined by the list and the page parameters: two pages of the same list at the same parameters are equal |
| Paging.PagesTile | routes/posts.js:14-26 | the first k pages, concatenated, are exactly the list's first k·size rows: pages neither overlap nor skip |
| Schema.FindPair | migrations/20240908063057-create-post-like.js:43-46 | a found join row holds the requested pair; no result means no row holds it |
| Schema.RemoveKeepsUnique | migrations/20240908063057-create-post-like.js:43-46 | deleting join rows keeps the (content, user) pairs unique |
| Likes.ToggleFlips | routes/likeposts.js:25-42 | a toggle removes the pair when it is present and adds it when absent; every other pair is untouched |
| Likes.ToggleLike | routes/likeposts.js:25-42 | the toggle likes exactly when the user has no row for the content, and it touches no content row but the counter |
| Likes.ToggleCounter | routes/likeposts.js:33-42 | the liked row's `likes_count` rises by one on a like and falls by one on an unlike; all other rows are unchanged |
| Likes.ToggleKeepsCounters | migrations/20240908063057-create-post-like.js:43-46 | if every `likes_count` equals its number of like rows before a toggle, that still holds afterwards |
| Likes.ToggleTwice | routes/likeposts.js:33-42 | toggling the same (content, user) twice restores both the like pairs and the counters |
| Likes.ToggleKeepsIntegrity | routes/likeposts.js:33-42 | a toggle on an existing content row by an existing user keeps the store's integrity |
| Likes.TogglePostLike | routes/likeposts.js:11-42 | a missing or unknown `postId` gives NotFound and changes nothing; otherwise the like pair flips, `likes_count` follows it, and nothing else changes |
| Likes.ToggleQuestionLike | routes/likequestions.js:11-42 | the same toggle for questions and the QuestionLike table |
| Likes.LikedCount | routes/likeposts.js:74-75 | the liked rows, counted one per content row, number exactly the distinct liked ids |
| Likes.LikedListingSpec | routes/likeposts.js:52-84 | `total` counts every content the user liked; the page is exactly the window at the page's offset of the liked rows sorted newest first, each with its row and its parent's summary |
| Likes.LikedListing | routes/likeposts.js:52-84 | `total` is the number of liked contents; the page is the exact offset window of the liked contents, newest first, each with its parent |
| Likes.LikedPosts | routes/likeposts.js:52-84 | the liked-posts listing: total of liked posts, and a page that is exactly the offset window of the user's liked posts, newest first, each carrying its parent |
| Likes.LikedQuestions | routes/likequestions.js:52-84 | the same listing over questions and QuestionLike: exactly the offset window of the liked questions, newest first |
| Likes.ParentOf | routes/likeposts.js:63-68 | the included parent is present exactly when the row's parent exists, and is that parent row's summary |
| Threads.Children | models/post.js:90-92 | the `children` of a row are exactly the rows whose `parent_id` is its id |
| Threads.Detail | routes/posts.js:46-69 | a detail fetch succeeds exactly for a stored id, and otherwise fails with NotFound; the included user is the row's owner when that user exists, the included topic is the row's topic when it is set and exists |
| Threads.DetailTwoLevels | routes/posts.js:51-66 | the detail holds exactly the row's children and each child's children, with no third level |
| Threads.Expand | routes/posts.js:51-66 | each direct reply is carried with its own row and exactly its children, position by position |
| Threads.RootCount | routes/posts.js:28-36 | the number of root rows equals the number of distinct root ids |
| Threads.RootListSpec | routes/posts.js:11-36 | `total` counts all roots; the page is exactly the offset window of the root rows (`parent_id` null) sorted newest first, each with its body left out |
| Threads.RootList | routes/posts.js:11-36 | `total` is the number of roots; the page is the exact offset window of the roots, newest first, bodies left out |
| Threads.ListPosts | routes/posts.js:11-36 | the root-post list: total of root posts, and a page that is exactly the offset window of the root posts, newest first, bodies left out |
| Threads.ListQuestions | routes/questions.js:11-36 | the root-question list: exactly the offset window of the root questions, newest first, with their total |
| Threads.PostDetail | routes/posts.js:46-69 | post detail succeeds iff the id exists, otherwise NotFound; the user is the post's owner row when it exists and the school is the row named by `school_id` when set and existing |
| Threads.QuestionDetail | routes/questions.js:46-69 | question detail succeeds iff the id exists, otherwise NotFound; the user is the owner row and the category the row named by `category_id`, each when it exists |
| Catalog.SubCategories | models/category.js:31-34 | a category's children are exactly the categories whose `parent_id` is its id |
| Catalog.LinkedChildren | routes/categories.js:43-55 | the children kept are exactly those linked to the given school |
| Catalog.TreeSound | routes/categories.js:32-55 | every node in the tree is a top-level category linked to the school, and each child listed is its direct child linked to that school |
| Catalog.Tree | routes/categories.js:32-55 | one node per top-level category linked to the school, each a stored category |
| Catalog.TreeComplete | routes/categories.js:32-55 | every top-level category linked to the school appears, with all its linked children |
| Catalog.CategoryTree | routes/categories.js:13-64 | NotFound when the user or their target school does not resolve; otherwise the tree for the target school |
| Catalog.CategoryIds | routes/categories.js:150-151 | the id set is exactly the category's id plus its direct children's ids |
| Catalog.QuestionsUnder | routes/categories.js:131-172 | NotFound exactly when the category id does not resolve |
| Catalog.QuestionsUnderSpec | routes/categories.js:154-161 | the questions returned are exactly those whose `category_id` is in that id set, grandchildren excluded |
| Home.Take | routes/index.js:27-34 | `limit: 5` keeps the first min(5, n) rows, in order |
| Home.InsertByLikes | routes/index.js:27-34 | inserting into a list sorted by likes keeps it sorted and adds exactly that row |
| Home.SortByLikes | routes/index.js:27-34 | `order: likes_count DESC` is a permutation sorted by descending likes |
| Home.HeadMostLiked | routes/index.js:27-34 | the first row of a likes-sorted list has the most likes |
| Home.MostLikedSpec | routes/index.js:27-34 | the list holds min(k, n) passing rows, most liked first, and no passing row left out has more likes than a listed one |
| Home.MostLiked | routes/index.js:27-34 | at most k rows, each a stored row passing the filter |
| Home.NewestSpec | routes/index.js:37-54 | the list holds at most k passing rows, newest first, and no newer passing row is left out |
| Home.Newest | routes/index.js:37-54 | at most k rows, each a stored row passing the filter, newest first |
| Home.HomePage | routes/index.js:10-72 | no user gives Unauthorized, an unknown user NotFound; otherwise four lists, each published, filtered as the route says, at most 5 long |
| Home.HomePageSpec | routes/index.js:27-72 | each list holds at most 5 published posts: recommended ones by likes, type 1, type 2, and the user's target school |
| Records.KindOf | routes/admin/schools.js:76-88 | a validation error is reported as a validation failure; every other error is unexpected |
| Records.Check | models/school.js:20-39 | a validator reports a violation exactly when its rule fails |
| Records.EmailViolations | models/user.js:45-63 | an e-mail must be given, valid and untaken; a duplicate is reported only with the generic check-error message |
| Records.UsernameViolations | models/user.js:64-78 | a username must be 2 to 45 characters and not taken |
| Records.NicknameViolations | models/user.js:97-105 | a nickname must be 2 to 45 characters |
| Records.SexViolations | models/user.js:106-114 | `sex` must be 0, 1 or 2 |
| Records.UserViolations | models/user.js:45-125 | a user is valid exactly when every checked field passes its validator |
| Records.SetPassword | models/user.js:79-96 | the setter stores the hash of a 6 to 45 character password, never the plaintext, and rejects anything else |
| Records.CreateUser | models/user.js:45-151 | a bad password is rejected by the setter; the save succeeds exactly when the password is accepted, every field rule holds and the school references hold; a saved user holds the given fields and school ids, `role` defaulting to 0, and the password's hash |
| Records.UpdateUser | models/user.js:45-151 | the save succeeds exactly when a given password is accepted, each CHANGED field passes its rule (an unchanged invalid value does not block it) and the school references hold; given fields replace the stored ones, the rest are kept |
| Records.UpdatedUser | routes/admin/users.js:112 | the row an accepted update writes: each given attribute replaces the stored one, and the password column is the setter's value |
| Records.UpdateViolationsExactly | routes/admin/users.js:112 | `user.update` validates only the attributes it changes: the merged attributes pass exactly when every changed field passes its rule |
| Records.EmptyUserUpdate | routes/admin/users.js:180-193 | an update whose whitelist is empty saves the user unchanged |
| Records.SchoolViolations | models/school.js:19-45 | `name` must be non-empty and `number` an integer of at least 1 |
| Records.CreateSchool | models/school.js:19-45 | a school is saved exactly when its name is non-empty and its number is at least 1 |
| Records.UpdateSchool | models/school.js:19-45 | given fields replace current ones, and the result is saved exactly when the changed fields are valid |
| Records.CategoryViolations | models/category.js:38-60 | `name` must be non-empty; a given `parent_id` must be at least 0 |
| Records.CreateCategory | models/category.js:38-60 | a category is saved exactly when its name is non-empty and any parent id is at least 0 |
| Records.UpdateCategory | models/category.js:38-60 | given fields replace current ones; validation covers only the changed fields |
| Records.ContentHook | models/post.js:98-111 | the hook passes exactly when the user exists and any truthy topic id exists; the user is checked first |
| Records.CreateContent | models/post.js:8-81 | missing title, content or user is a validation error; otherwise the row is saved with its defaults exactly when the hook passes and the status is storable |
| Records.MergeContent | routes/admin/posts.js:107 | the attributes `update` validates always carry a title, a content, a non-negative owner and a status, so no not-null rule can fail on an update |
| Records.UpdateContent | models/post.js:74-111 | the save succeeds exactly when the owner exists and the merged topic, parent and status are storable; every given field (topic, parent, video, difficulty and cover included) replaces the row's, the rest are kept, and the owner never changes |
| Records.ReactionHook | models/postlike.js:46-58 | the hook passes exactly when content and user both exist, and the content is checked first |
| Records.CreateReaction | models/postlike.js:12-58 | a missing id is a validation error; otherwise the row is saved exactly when both references exist |
| Records.UpdateReaction | models/postlike.js:40-58 | the save succeeds exactly when the merged content and user ids both resolve and no other row holds that pair; the saved ids are the merged ones, and an unknown content is reported first |
| Records.CreateLink | models/schoolcategory.js:12-69 | a missing id or an out-of-range frequency is a validation error; otherwise the save succeeds exactly when both ids resolve and the pair is new; the frequency defaults to 3; an unknown category is reported before an unknown school |
| Records.UpdateLink | models/schoolcategory.js:47-69 | the save succeeds exactly when a changed frequency lies in [1, 5], the merged ids resolve and no other row holds the pair; the saved ids are the merged ones; only a changed frequency is validated; an empty update of a valid row keeps it |
| Cascade.Subtree | migrations/20240907101404-create-post.js:40-49 | the rows removed by `ON DELETE CASCADE` on `parent_id` contain the roots and every reply under them |
| Cascade.SubtreeLeast | migrations/20240907101404-create-post.js:40-49 | the cascade removes nothing else: it is the least reply-closed set containing the roots |
| Cascade.OwnedBy | migrations/20240907101404-create-post.js:20-29 | it collects every content row of the user |
| Cascade.ClearTopic | migrations/20240907101404-create-post.js:30-39 | `SET NULL` clears the topic of exactly the rows that referenced it |
| Cascade.ClearTarget | migrations/20240907101401-create-user.js:54-63 | deleting a school clears `target_school_id` of exactly the users who named it |
| Cascade.DeletePosts | migrations/20240907101404-create-post.js:40-49 | deleting posts removes their reply subtree and the subtree's likes and favourites, and nothing else |
| Cascade.DeleteQuestions | migrations/20240907101403-create-question.js:40-49 | the same cascade for questions |
| Cascade.DeleteUser | migrations/20240907101404-create-post.js:20-29 | deleting a user removes exactly them, the subtrees of their posts and questions (replies by others included), and exactly the reactions they gave or that a removed row received; every other row is kept |
| Cascade.DeleteSchool | migrations/20240907101403-create-school-category.js:22-31 | deleting a school removes exactly it and its links; every user and post is kept in place, with `target_school_id`/`school_id` cleared exactly where it named the school |
| Cascade.DeleteCategory | migrations/20240907101403-create-question.js:30-39 | deleting a category removes exactly it and its links; every question is kept in place, with `category_id` cleared exactly where it named the category |
| Cascade.DeletePostsKeepsIntegrity | migrations/20240907101404-create-post.js:20-49 | the post cascade keeps the store's integrity |
| Cascade.DeleteQuestionsKeepsIntegrity | migrations/20240907101403-create-question.js:20-49 | the question cascade keeps the store's integrity |
| Cascade.DeleteUserKeepsIntegrity | migrations/20240908063057-create-post-like.js:22-31 | the user cascade keeps the store's integrity |
| Cascade.DeleteSchoolKeepsIntegrity | migrations/20240907101403-create-school-category.js:22-31 | the school cascade keeps the store's integrity |
| Cascade.DeleteCategoryKeepsIntegrity | migrations/20240907101403-create-school-category.js:12-21 | the category cascade keeps the store's integrity |
| Writes.WithJoin | routes/admin/postlikes.js:45-55 | replacing one join table leaves every other table untouched |
| Writes.InsertPostKeepsIntegrity | models/post.js:98-111 | inserting a post whose references resolve keeps integrity |
| Writes.UpdatePostKeepsIntegrity | models/post.js:98-111 | updating a post to a row whose references resolve keeps integrity |
| Writes.InsertQuestionKeepsIntegrity | models/question.js:98-111 | inserting a question whose references resolve keeps integrity |
| Writes.UpdateQuestionKeepsIntegrity | models/question.js:98-111 | updating a question to a row whose references resolve keeps integrity |
| Writes.InsertUserKeepsIntegrity | migrations/20240907101401-create-user.js:75-78 | inserting a user with an unused e-mail and a resolvable school keeps integrity |
| Writes.UpdateUserKeepsIntegrity | migrations/20240907101401-create-user.js:75-78 | updating a user to an e-mail no other user holds keeps integrity |
| Writes.InsertSchoolKeepsIntegrity | models/school.js:19-45 | inserting a school keeps integrity |
| Writes.UpdateSchoolKeepsIntegrity | models/school.js:19-45 | updating a school keeps integrity |
| Writes.InsertCategoryKeepsIntegrity | models/category.js:38-60 | inserting a category keeps integrity |
| Writes.UpdateCategoryKeepsIntegrity | models/category.js:38-60 | updating a category keeps integrity |
| Writes.InsertJoinKeepsIntegrity | migrations/20240908063057-create-post-like.js:43-46 | inserting a resolvable pair that is not yet stored keeps integrity |
| Writes.UpdateJoinKeepsIntegrity | migrations/20240908063057-create-post-like.js:43-46 | updating a join row to a resolvable pair no other row holds keeps integrity |
| Writes.InsertLinkKeepsIntegrity | migrations/20240907101403-create-school-category.js:51-54 | inserting a resolvable link with a new (category, school) pair keeps integrity |
| Writes.UpdateLinkKeepsIntegrity | migrations/20240907101403-create-school-category.js:51-54 | updating a link to a pair no other link holds keeps integrity |
| Writes.DeleteJoinKeepsIntegrity | routes/admin/postlikes.js:107-115 | deleting one join row keeps integrity |
| Writes.DeleteLinkKeepsIntegrity | routes/admin/schoolcategories.js:105-113 | deleting one link row keeps integrity |
| AdminCommon.ListNewest | routes/admin/schools.js:13-49 | an admin list: `total` counts the filtered rows; the page is exactly the offset window of the filtered rows sorted newest first |
| AdminCommon.Lookup | routes/admin/schools.js:145-154 | a `getX` helper succeeds exactly for a stored id and otherwise throws NotFound |
| AdminCommon.LookupAt | routes/admin/schools.js:145-154 | looking up a stored row's id returns that row |
| AdminCommon.SelectAll | routes/admin/schools.js:20-32 | a filter every row passes keeps the whole table |
| AdminCommon.EmptyPatternMatches | routes/admin/schools.js:26-32 | an empty LIKE pattern matches every string |
| AdminPosts.FilterBody | routes/admin/posts.js:166-180 | the whitelist never carries `user_id` |
| AdminPosts.NoTitleSelectsAll | routes/admin/posts.js:30-36 | without a title query, the filter selects every post |
| AdminPosts.ListByTitle | routes/admin/posts.js:13-52 | the admin post list: exactly the offset window of the posts whose title contains the query, newest first; with no query `total` is the table size |
| AdminPosts.CreatePost | routes/admin/posts.js:69-92 | the admin becomes the owner; a saved post is appended with the body's values and the whitelist defaults |
| AdminPosts.UpdatePost | routes/admin/posts.js:98-112 | NotFound for an unknown id; BadRequest for an empty title or content before any write; omitted counters reset to 0, `is_recommended` to false and `status` to published |
| AdminPosts.DeletePost | routes/admin/posts.js:118-126 | NotFound for an unknown id; otherwise the post cascade, and nothing else |
| AdminQuestions.FilterBody | routes/admin/questions.js:186-201 | the whitelist never carries `user_id` |
| AdminQuestions.NoContentSelectsAll | routes/admin/questions.js:26-32 | without a content query, the filter selects every question |
| AdminQuestions.ListByContent | routes/admin/questions.js:13-49 | the admin question list: exactly the offset window of the questions whose content contains the query, newest first |
| AdminQuestions.SaveQuestion | routes/admin/questions.js:83-101 | a saved question is appended; a failed save changes nothing and reports its error kind |
| AdminQuestions.CreateQuestion | routes/admin/questions.js:67-102 | an unknown `category_id` gives BadRequest; otherwise the save always fails with a validation error, and nothing is written |
| AdminQuestions.CreateOwnedQuestion | routes/admin/questions.js:67-102 | with the admin as owner: BadRequest for an unknown category, and otherwise the question is saved with the admin as its owner |
| AdminQuestions.UpdateQuestion | routes/admin/questions.js:108-144 | an unknown id fails before the category check; an unknown category gives BadRequest; omitted counters and flags reset to defaults |
| AdminQuestions.DeleteQuestion | routes/admin/questions.js:150-164 | an unknown id is reported as unexpected, not NotFound; otherwise the question cascade |
| AdminCategories.NoNameSelectsAll | routes/admin/categories.js:26-32 | without a name query, the filter selects every category |
| AdminCategories.ListByName | routes/admin/categories.js:13-51 | the admin category list: exactly the offset window of the categories whose name contains the query, newest first |
| AdminCategories.CreateCategory | routes/admin/categories.js:67-102 | an unknown `parent_id` gives BadRequest and writes nothing; otherwise the validated category is appended |
| AdminCategories.UpdateCategory | routes/admin/categories.js:108-144 | an unknown id is unexpected; an unknown parent is BadRequest; existence is the only parent check, so a category may become its own parent |
| AdminCategories.DeleteCategory | routes/admin/categories.js:150-164 | an unknown id is unexpected; otherwise the category cascade |
| AdminSchools.NoNameSelectsAll | routes/admin/schools.js:26-32 | without a name query, the filter selects every school |
| AdminSchools.ListByName | routes/admin/schools.js:13-49 | the admin school list: exactly the offset window of the schools whose name contains the query, newest first |
| AdminSchools.CreateSchool | routes/admin/schools.js:67-90 | a valid school is appended; a validation failure changes nothing |
| AdminSchools.UpdateSchool | routes/admin/schools.js:96-120 | an unknown id is unexpected; otherwise only the whitelisted fields change, when valid |
| AdminSchools.DeleteSchool | routes/admin/schools.js:126-140 | an unknown id is unexpected; otherwise the school cascade |
| AdminUsers.NoUsernameSelectsAll | routes/admin/users.js:26-32 | without a username query, the filter selects every user |
| AdminUsers.ListByUsername | routes/admin/users.js:13-49 | the admin user list: exactly the offset window of the users whose username contains the query, newest first |
| AdminUsers.KeptEmailStaysUnique | migrations/20240907101401-create-user.js:75-78 | with unique e-mails, every other user's e-mail differs from the looked-up user's |
| AdminUsers.CreateUser | routes/admin/users.js:65-97 | a user with an accepted password, valid fields and existing school references is appended, with `role` defaulting to 0; a taken e-mail always fails; validation errors and other errors are told apart |
| AdminUsers.UpdateUser | routes/admin/users.js:103-139 | an unknown id is unexpected; a saved user's e-mail differs from every other user's |
| AdminUsers.DeleteUser | routes/admin/users.js:145-158 | an unknown id is unexpected; otherwise the user cascade |
| AdminJoins.Matching | routes/admin/postlikes.js:45-53 | the `findOrCreate` lookup finds a row holding exactly the requested pair |
| AdminJoins.Upsert | routes/admin/postlikes.js:42-72 | an absent pair creates one row (201); a present pair creates none (200); content counters are never touched |
| AdminJoins.CreatedThenFound | routes/admin/postlikes.js:45-55 | after creating a pair, the next lookup finds exactly that new row, so a second POST does not duplicate it |
| AdminJoins.UpdateJoin | routes/admin/postlikes.js:78-100 | an unknown id is unexpected; otherwise the update succeeds exactly when the merged ids resolve and no other row holds that pair, and the row then takes the merged ids |
| AdminJoins.DeleteJoin | routes/admin/postlikes.js:107-115 | NotFound for an unknown id; otherwise exactly that row is removed and counters are untouched |
| AdminJoins.DeleteJoinRemovesOne | routes/admin/postlikes.js:107-115 | deleting a row removes exactly its pair from the join table |
| AdminJoins.FindLink | models/schoolcategory.js:41-46 | the lookup finds the link for a (category, school) pair exactly when one is stored |
| AdminJoins.LinkBody | routes/admin/schoolcategories.js:137-143 | the body never carries an exam frequency |
| AdminJoins.RequestedFrequencyDropped | routes/admin/schoolcategories.js:141 | a frequency sent by the client never reaches the write |
| AdminJoins.LinkBodyWithFrequency | routes/admin/schoolcategories.js:137-143 | the corrected body carries the client's frequency |
| AdminJoins.RequestedFrequencyKept | routes/admin/schoolcategories.js:137-143 | in the corrected body, a client frequency reaches the write |
| AdminJoins.UpsertLinkAttrs | routes/admin/schoolcategories.js:43-70 | `findOrCreate` on (category, school), then `update` with the body: creates exactly one row, or finds and updates the stored one |
| AdminJoins.UpdateWithSame | routes/admin/schoolcategories.js:46-53 | writing a row's own value back changes nothing |
| AdminJoins.FoundLinkUnchanged | routes/admin/schoolcategories.js:46-53 | the update after a found link rewrites its own ids and changes nothing |
| AdminJoins.FoundLinkTakesFrequency | routes/admin/schoolcategories.js:46-53 | the update after a found link saves it with the given frequency whenever that frequency is valid or unchanged |
| AdminJoins.UpsertLink | routes/admin/schoolcategories.js:43-70 | a found link is returned unchanged; a new link with resolving ids is created, with the default frequency 3 whatever the client sent |
| AdminJoins.UpsertLinkWithFrequency | routes/admin/schoolcategories.js:43-70 | corrected: a new link with resolving ids and a valid frequency is created with the client's frequency (else 3); a found link is set to the client's frequency, or the request is a validation error when that frequency changes the link and lies outside [1, 5] |
| AdminJoins.UpdateLink | routes/admin/schoolcategories.js:76-99 | an unknown id is unexpected; otherwise the update succeeds exactly when the merged ids resolve and no other link holds the pair, the ids then change to the merged ones, and the frequency stays as it was |
| AdminJoins.DeleteLink | routes/admin/schoolcategories.js:105-113 | NotFound for an unknown id; otherwise exactly that link is removed |
| AdminAuth.KindOf | routes/admin/auth.js:18-50 | missing login or password is BadRequest, an unknown user NotFound, a wrong password or non-admin Unauthorized |
| AdminAuth.FindLogin | routes/admin/auth.js:26-39 | the user is matched by e-mail or username; none is found exactly when no user matches |
| AdminAuth.SignIn | routes/admin/auth.js:14-61 | the checks run in order: login, password, lookup, password match, role; a token goes only to a matched admin |
| AdminAuth.TokenIffAllChecksPass | routes/admin/auth.js:53-57 | a token is issued for a user exactly when all five checks pass for that user |
| AdminAuth.WrongPasswordBeforeRole | routes/admin/auth.js:42-50 | a wrong password is reported even for a non-admin: the password is checked before the role |

## Left out

- HTTP, Express routing, middleware wiring and logging are not modelled. The authenticated user id is a parameter. `app.js` applies user authentication to every router, and the admin-authentication middleware is not part of this model.
- `failure()` in `utils/responses` is not part of this model, so errors are modelled as kinds (NotFound, BadRequest, Unauthorized, Validation, Unexpected), not as status codes.
- JWT signing is left out: a successful sign-in yields the user id as a token.
- bcrypt is a parameter. The hash is an opaque function `hash`, and the password check is an abstract predicate.
- The `isEmail` format check is an abstract predicate.
- `createdAt` is modelled by id order: ids are auto-increment, so a newer row has a larger id.
- Concurrency: the routes use no transactions, and the model is sequential.
- Favourite toggling and `views_count`: no route maintains them. Favourite rows appear only in the admin join routes and the cascades.
- `routes/tab1.js` and `routes/admin/userquestions.js` are not mounted, and neither is part of this model.
- Page and size are integers. A fractional `Number()` result is not modelled.
- JSON `null` in request bodies is not modelled. A field is either absent (undefined) or given.
- Integer column widths are not modelled.
- LIKE escaping is not modelled: `%` and `_` in a query are matched literally, as a plain substring test.
- Association includes in the admin lists and in the admin join listings (`GET /` on the join routers) are not modelled. Those listings return raw rows and add no logic.
- Validation messages are kept, but the order in which Sequelize reports several of them is not.
- AdminAuth.FindLogin returns the first matching user in id order. `findOne` leaves the order unspecified, but the e-mail index is unique and a username–e-mail clash is the only case where it matters.
- The Categories table has no migration. Its constraints come from models/category.js alone.
- The QuestionFavorites table has no migration. Its unique (question, user) index is taken over from the other three join tables' migrations.
- Records.SetPassword: the length test counts characters (Unicode scalar values), while JavaScript's `length` counts UTF-16 code units. A password with characters outside the Basic Multilingual Plane can therefore be accepted by one and rejected by the other.
- AdminCommon.Like: the substring test is exact and case-sensitive. MySQL's default collation makes `LIKE` case-insensitive, and the model has no case folding.
- Records.EmailTaken, Records.UsernameTaken and AdminAuth.FindLogin compare strings exactly. Two e-mails or usernames that differ only in case are different here, though the collation would treat them as equal.
- Storage.Store.Commit replaces the whole database value at once. The cascades are written as functions over that value, not as row-by-row SQL.

## Findings

| source | as written | input that shows it | evidently intended | confidence | as-written member | corrected member |
|---|---|---|---|---|---|---|
| routes/admin/questions.js:186-201 | `filterBody` never copies `user_id`, but `user_id` is `allowNull: false` in models/question.js, so every admin create fails validation | any POST with a valid title, content and existing `category_id` | the admin (`req.user.id`) becomes the owner, as in routes/admin/posts.js:72 | high, not executed | AdminQuestions.CreateQuestion | AdminQuestions.CreateOwnedQuestion |
| routes/admin/schoolcategories.js:141 | `exam_frequency` is read from `req.exam_frequency`, which is never set, so the client's value is ignored and new links always get the default 3 | POST with `exam_frequency: 5` for a new (category, school) pair stores 3 | read `req.body.exam_frequency` like the other fields | high, not executed | AdminJoins.UpsertLink | AdminJoins.UpsertLinkWithFrequency |
