/** The store as the routes see it: one mutable object holding every table,
    which the handlers read and write one query at a time. */
module Store {
  import opened Schema

  class Db {
    /** The current contents of every table and the autoincrement counter. */
    var tables: DbState

    constructor ()
      ensures tables == EmptyDb
    {
      tables := EmptyDb;
    }

    /** Takes the next autoincrement id. */
    method FreshId() returns (id: int)
      modifies this
      ensures id == old(tables.nextId) && tables == old(tables).(nextId := id + 1)
    {
      id := tables.nextId;
      tables := tables.(nextId := id + 1);
    }
  }
}
