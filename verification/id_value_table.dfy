/** The `{id, value}` record shape of `IdValueTable.java`, the base of every
    lookup-table entity kind (Category, Role, Tag, ...). */
module Entities {
  import opened Outcomes

  /** One entity object. `value` is a Java `String` field and so may be null
      (None) until it is set; `id` is 0 until the store assigns one. */
  datatype IdValueTable = IdValueTable(id: int, value: Option<string>)

  /** `new IdValueTable()`: both fields at their Java defaults. */
  function Empty(): (e: IdValueTable)
    ensures GetId(e) == 0 && GetValue(e).None?
  {
    IdValueTable(0, None)
  }

  /** `new IdValueTable(String value)`: the value is set and the id keeps
      its default 0 until the store assigns one. */
  function WithValue(v: string): (e: IdValueTable)
    ensures GetValue(e) == Some(v)
    ensures GetId(e) == 0
  {
    IdValueTable(0, Some(v))
  }

  /** `new IdValueTable(int id)`: a reference to an existing row by id; the
      value stays null. */
  function WithId(i: int): (e: IdValueTable)
    ensures GetId(e) == i
    ensures GetValue(e).None?
  {
    IdValueTable(i, None)
  }

  function GetId(e: IdValueTable): int
  {
    e.id
  }

  function GetValue(e: IdValueTable): Option<string>
  {
    e.value
  }

  /** `setId`: the id is replaced and the value is left alone. */
  function SetId(e: IdValueTable, i: int): (e': IdValueTable)
    ensures GetId(e') == i
    ensures GetValue(e') == GetValue(e)
  {
    e.(id := i)
  }

  /** `setValue` (which also accepts null): the value is replaced and the id
      is left alone. */
  function SetValue(e: IdValueTable, v: Option<string>): (e': IdValueTable)
    ensures GetValue(e') == v
    ensures GetId(e') == GetId(e)
  {
    e.(value := v)
  }

  /** An entity is determined by what its two getters return, so the two
      setters reach every state from any starting object, in either order. */
  lemma SettersDetermineEntity(e: IdValueTable, i: int, v: Option<string>)
    ensures SetValue(SetId(e, i), v) == SetId(SetValue(e, v), i)
    ensures SetValue(SetId(e, i), v) == IdValueTable(i, v)
    ensures SetId(e, GetId(e)) == e && SetValue(e, GetValue(e)) == e
  {
  }

  /** Building by value and then assigning an id gives the same object as
      building by id and then assigning the value. */
  lemma ConstructorsAgree(i: int, v: string)
    ensures SetId(WithValue(v), i) == SetValue(WithId(i), Some(v))
  {
  }
}
