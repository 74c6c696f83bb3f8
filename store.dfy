/** The database connection as the handlers see it: one mutable table per
    model. Handlers read the tables and replace them with updated ones, one
    statement at a time. */
module Storage {
  import opened Common
  import opened Tables
  import opened Schema

  class Store {
    var users: Table<User>
    var schools: Table<School>
    var categories: Table<Category>
    var posts: Table<Content>
    var questions: Table<Content>
    var postLikes: Table<Reaction>
    var postFavorites: Table<Reaction>
    var questionLikes: Table<Reaction>
    var questionFavorites: Table<Reaction>
    var schoolCategories: Table<SchoolCategory>

    /** The store's current contents as a value. */
    function State(): Db
      reads this
    {
      Db(users, schools, categories, posts, questions,
         postLikes, postFavorites, questionLikes, questionFavorites, schoolCategories)
    }

    ghost predicate Valid()
      reads this
    {
      Integrity(State())
    }

    /** A freshly migrated, empty database. */
    constructor ()
      ensures Valid()
      ensures State() == Db(EmptyTable(), EmptyTable(), EmptyTable(), EmptyTable(), EmptyTable(),
                            EmptyTable(), EmptyTable(), EmptyTable(), EmptyTable(), EmptyTable())
    {
      users := EmptyTable();
      schools := EmptyTable();
      categories := EmptyTable();
      posts := EmptyTable();
      questions := EmptyTable();
      postLikes := EmptyTable();
      postFavorites := EmptyTable();
      questionLikes := EmptyTable();
      questionFavorites := EmptyTable();
      schoolCategories := EmptyTable();
    }

    /** Replaces the whole contents, as one statement whose effects the
        database applies together (a delete with its cascades). */
    method Commit(db: Db)
      modifies this
      ensures State() == db
    {
      users, schools, categories := db.users, db.schools, db.categories;
      posts, questions := db.posts, db.questions;
      postLikes, postFavorites := db.postLikes, db.postFavorites;
      questionLikes, questionFavorites := db.questionLikes, db.questionFavorites;
      schoolCategories := db.schoolCategories;
    }
  }
}
