/** The generic entity service of `ServiceFactory.java`: create-or-reject by
    value, exact-match lookup and listing, over an abstract Hibernate table.

    The Hibernate session is replaced by a `Store` value (the kind's rows and
    its identity counter); a transaction that saves one entity is one atomic
    append. Reflection is replaced by the kind's `construct` function. A
    failure of the database itself is not something the model can compute,
    so it enters as a parameter `fault`: None when the port call goes
    through, Some(message) when it throws. */
module ServiceFactory {
  import opened Outcomes
  import opened Entities
  import JavaStrings

  /** One entity kind bound to the generic service: the class's simple name
      (`clazz.getSimpleName()`) and its single-`String` constructor, which
      yields None when the class declares no such constructor or when it
      throws. */
  datatype EntityKind = EntityKind(simpleName: string, construct: string -> Option<IdValueTable>)

  /** The kind's table: rows in insertion order and the next value of the
      IDENTITY column. */
  datatype Store = Store(rows: seq<IdValueTable>, nextId: int)

  /** A service call's outcome together with the store it leaves behind. */
  datatype Step<+T> = Step(result: Result<T, Exception>, store: Store)

  /** A fresh table: no rows, and IDENTITY starts at 1. */
  const EmptyStore: Store := Store([], 1)

  /** What the table itself guarantees: the `value` column is not null, and
      ids are positive, increase in insertion order and stay below the
      counter, so no id is ever reused. */
  predicate Valid(s: Store)
  {
    && 1 <= s.nextId
    && (forall i :: 0 <= i < |s.rows| ==> s.rows[i].value.Some? && 1 <= s.rows[i].id < s.nextId)
    && (forall i, j :: 0 <= i < j < |s.rows| ==> s.rows[i].id < s.rows[j].id)
  }

  /** No two rows share a value: the uniqueness the service is meant to keep. */
  predicate ValuesDistinct(rows: seq<IdValueTable>)
  {
    forall i, j :: 0 <= i < j < |rows| ==> rows[i].value != rows[j].value
  }

  /** Some row holds exactly the value `v`. */
  predicate HasValue(rows: seq<IdValueTable>, v: string)
  {
    exists i :: 0 <= i < |rows| && rows[i].value == Some(v)
  }

  /** The set of values present in the table. */
  function Values(rows: seq<IdValueTable>): set<string>
  {
    set i | 0 <= i < |rows| && rows[i].value.Some? :: rows[i].value.value
  }

  /** The constructor honours the by-convention contract at `v`: whatever it
      builds carries `v` as its value. */
  predicate ConformsAt(kind: EntityKind, v: string)
  {
    kind.construct(v).None? || GetValue(kind.construct(v).value) == Some(v)
  }

  /** A kind whose class declares `Kind(String value) { super(value); }`. */
  function ByConvention(simpleName: string): (kind: EntityKind)
    ensures kind.simpleName == simpleName
    ensures forall v :: kind.construct(v) == Some(WithValue(v))
  {
    EntityKind(simpleName, v => Some(WithValue(v)))
  }

  /** Two different rows both hold exactly the value `v`. */
  predicate Ambiguous(rows: seq<IdValueTable>, v: string)
  {
    exists i, j :: 0 <= i < j < |rows| && rows[i].value == Some(v) && rows[j].value == Some(v)
  }

  /** The rows `Restrictions.eq("value", v)` selects, in table order. */
  function Matching(rows: seq<IdValueTable>, v: string): (m: seq<IdValueTable>)
    ensures |m| <= |rows|
    ensures forall e :: e in m ==> e in rows && e.value == Some(v)
    ensures m == [] <==> !HasValue(rows, v)
    ensures ValuesDistinct(rows) ==> |m| <= 1
  {
    if rows == [] then []
    else if rows[0].value == Some(v) then [rows[0]] + Matching(rows[1..], v)
    else Matching(rows[1..], v)
  }

  /** The query drops no row: every row holding exactly `v` is selected. */
  lemma {:induction false} MatchingComplete(rows: seq<IdValueTable>, v: string, i: nat)
    requires i < |rows| && rows[i].value == Some(v)
    ensures rows[i] in Matching(rows, v)
    decreases |rows|
  {
    if i > 0 {
      assert rows[1..][i - 1] == rows[i];
      MatchingComplete(rows[1..], v, i - 1);
    }
  }

  /** The query selects two or more rows exactly when two different rows
      hold `v`. */
  lemma MatchingAmbiguous(rows: seq<IdValueTable>, v: string)
    ensures |Matching(rows, v)| >= 2 <==> Ambiguous(rows, v)
  {
    if |Matching(rows, v)| >= 2 {
      ManyMatchesAmbiguous(rows, v);
    }
    if Ambiguous(rows, v) {
      var i, j :| 0 <= i < j < |rows| && rows[i].value == Some(v) && rows[j].value == Some(v);
      AmbiguousManyMatches(rows, v, i, j);
    }
  }

  lemma {:induction false} ManyMatchesAmbiguous(rows: seq<IdValueTable>, v: string)
    requires |Matching(rows, v)| >= 2
    ensures Ambiguous(rows, v)
    decreases |rows|
  {
    var tail := rows[1..];
    if rows[0].value == Some(v) {
      assert HasValue(tail, v) by {
        assert Matching(rows, v) == [rows[0]] + Matching(tail, v);
      }
      var k :| 0 <= k < |tail| && tail[k].value == Some(v);
      assert rows[k + 1] == tail[k];
      AmbiguousAt(rows, v, 0, k + 1);
    } else {
      assert |Matching(tail, v)| >= 2 by {
        assert Matching(rows, v) == Matching(tail, v);
      }
      ManyMatchesAmbiguous(tail, v);
      var i, j :| 0 <= i < j < |tail| && tail[i].value == Some(v) && tail[j].value == Some(v);
      assert rows[i + 1] == tail[i] && rows[j + 1] == tail[j];
      AmbiguousAt(rows, v, i + 1, j + 1);
    }
  }

  lemma AmbiguousAt(rows: seq<IdValueTable>, v: string, i: nat, j: nat)
    requires i < j < |rows| && rows[i].value == Some(v) && rows[j].value == Some(v)
    ensures Ambiguous(rows, v)
  {
  }

  lemma {:induction false} AmbiguousManyMatches(rows: seq<IdValueTable>, v: string, i: nat, j: nat)
    requires i < j < |rows| && rows[i].value == Some(v) && rows[j].value == Some(v)
    ensures |Matching(rows, v)| >= 2
    decreases |rows|
  {
    var tail := rows[1..];
    assert tail[j - 1] == rows[j];
    if i == 0 {
      assert HasValue(tail, v);
    } else {
      assert tail[i - 1] == rows[i];
      AmbiguousManyMatches(tail, v, i - 1, j - 1);
    }
  }

  /** The text of Hibernate's NonUniqueResultException. */
  function NonUniqueMessage(count: nat): string
  {
    "query did not return a unique result: " + JavaStrings.NatToString(count)
  }

  /** The text of Hibernate's exception for a null in a not-null column. */
  const NullValueMessage: string := "not-null property references a null or transient value"

  /** `getByValue`: `uniqueResult` of the exact-match query. Absent is null,
      one match is returned, and several matches make Hibernate throw, which
      cannot happen while values are distinct. Only reads the store. */
  function GetByValue(s: Store, v: string): (r: Result<Option<IdValueTable>, Exception>)
    ensures r == Success(None) <==> !HasValue(s.rows, v)
    ensures r.Success? && r.value.Some? ==> r.value.value in s.rows && GetValue(r.value.value) == Some(v)
    ensures r.Failure? ==> r.error.OtherException?
    // Hibernate throws exactly when two different rows hold `v`.
    ensures r.Failure? <==> Ambiguous(s.rows, v)
    ensures ValuesDistinct(s.rows) ==> r.Success?
  {
    MatchingAmbiguous(s.rows, v);
    var m := Matching(s.rows, v);
    if |m| == 0 then Success(None)
    else if |m| == 1 then Success(Some(m[0]))
    else Failure(OtherException(NonUniqueMessage(|m|)))
  }

  /** `beginTransaction; save; commit` as one atomic append: the port gives
      the entity the next identity value. A port fault, or a null value
      against the not-null column, throws and leaves the table as it was. */
  function Save(s: Store, e: IdValueTable, fault: Option<string>): (r: Result<Store, Exception>)
    ensures r.Success? <==> fault.None? && GetValue(e).Some?
    ensures fault.Some? ==> r == Failure(OtherException(fault.value))
    ensures r.Success? ==> r.value.rows == s.rows + [SetId(e, s.nextId)]
    ensures r.Failure? ==> r.error.OtherException?
    ensures Valid(s) && r.Success? ==> Valid(r.value)
  {
    if fault.Some? then Failure(OtherException(fault.value))
    else if e.value.None? then Failure(OtherException(NullValueMessage))
    else Success(Store(s.rows + [SetId(e, s.nextId)], s.nextId + 1))
  }

  /** The message of the FactoryException raised for a duplicate value. */
  function DuplicateMessage(kind: EntityKind): string
  {
    kind.simpleName + " already exists!"
  }

  /** The message of the exception raised when the constructor fails. */
  function InstantiationMessage(kind: EntityKind): string
  {
    "Could not instantiate class: " + kind.simpleName
  }

  /** `create(value)`: reject a value already present, otherwise construct,
      save, and return what a fresh lookup by the same value finds. The value
      is used exactly as given: no trimming, no emptiness check. */
  function Create(kind: EntityKind, s: Store, v: string, fault: Option<string>): (st: Step<Option<IdValueTable>>)
    // A FactoryException means a duplicate, and nothing was written.
    ensures st.result.Failure? && st.result.error.FactoryException? ==>
              st.result.error.message == DuplicateMessage(kind) && HasValue(s.rows, v) && st.store == s
    ensures HasValue(s.rows, v) && !Ambiguous(s.rows, v) ==>
              st == Step(Failure(FactoryException(DuplicateMessage(kind))), s)
    // A constructor failure is not a FactoryException, and nothing was written.
    ensures !HasValue(s.rows, v) && kind.construct(v).None? ==>
              st == Step(Failure(OtherException(InstantiationMessage(kind))), s)
    // The table either stays as it was or gains exactly the constructed
    // entity, under the next id; success always means it gained one.
    ensures st.store != s ==>
              && !HasValue(s.rows, v) && kind.construct(v).Some?
              && st.store.rows == s.rows + [SetId(kind.construct(v).value, s.nextId)]
              && st.store.nextId == s.nextId + 1
    ensures st.result.Success? ==> st.store != s
    // Every failure leaves the table as it was: the lookup after the commit
    // finds at most the one new row, so it never throws.
    ensures st.result.Failure? ==> st.store == s
    // A failing save is reported with the port's own message.
    ensures !HasValue(s.rows, v) && kind.construct(v).Some? && fault.Some? ==>
              st == Step(Failure(OtherException(fault.value)), s)
    // A constructed entity without a value violates the not-null column.
    ensures !HasValue(s.rows, v) && kind.construct(v).Some? && fault.None? &&
            GetValue(kind.construct(v).value).None? ==>
              st == Step(Failure(OtherException(NullValueMessage)), s)
    // What is returned is a stored row holding exactly `v`.
    ensures st.result.Success? && st.result.value.Some? ==>
              st.result.value.value in st.store.rows && GetValue(st.result.value.value) == Some(v)
    // With a by-convention constructor the new row holds `v` and the
    // returned entity is that row, carrying the assigned id.
    ensures ConformsAt(kind, v) && st.result.Success? ==>
              st.result == Success(Some(IdValueTable(s.nextId, Some(v))))
    // Two rows already holding `v` make the first lookup throw Hibernate's
    // non-unique exception, before anything is constructed.
    ensures Ambiguous(s.rows, v) ==>
              st == Step(Failure(OtherException(NonUniqueMessage(|Matching(s.rows, v)|))), s)
    // A constructor that builds some other non-null value: the entity is
    // saved, and the lookup by `v` afterwards finds nothing, so null is
    // returned.
    ensures !HasValue(s.rows, v) && kind.construct(v).Some? && fault.None? &&
            GetValue(kind.construct(v).value).Some? ==>
              st.result.Success? && (st.result.value.None? <==> GetValue(kind.construct(v).value) != Some(v))
    ensures Valid(s) ==> Valid(st.store)
  {
    MatchingAmbiguous(s.rows, v);
    match GetByValue(s, v)
    case Failure(err) => Step(Failure(err), s)
    case Success(Some(_)) => Step(Failure(FactoryException(DuplicateMessage(kind))), s)
    case Success(None) =>
      match kind.construct(v)
      case None => Step(Failure(OtherException(InstantiationMessage(kind))), s)
      case Some(entity) =>
        match Save(s, entity, fault)
        case Failure(err) => Step(Failure(err), s)
        case Success(saved) =>
          assert GetValue(entity) == Some(v) ==> Matching(saved.rows, v) == [SetId(entity, s.nextId)] by {
            if GetValue(entity) == Some(v) {
              MatchingAppend(s.rows, SetId(entity, s.nextId), v);
            }
          }
          assert GetValue(entity) != Some(v) ==> Matching(saved.rows, v) == [] by {
            if GetValue(entity) != Some(v) {
              NoMatchAppend(s.rows, SetId(entity, s.nextId), v);
            }
          }
          Step(GetByValue(saved, v), saved)
  }

  /** Appending a row matching `v` to rows that hold no `v` gives exactly one
      match. */
  lemma {:induction false} MatchingAppend(rows: seq<IdValueTable>, e: IdValueTable, v: string)
    requires !HasValue(rows, v) && e.value == Some(v)
    ensures Matching(rows + [e], v) == [e]
  {
    if rows != [] {
      assert (rows + [e])[1..] == rows[1..] + [e];
      MatchingAppend(rows[1..], e, v);
    }
  }

  /** Appending a row that does not hold `v` to rows that hold no `v`
      leaves nothing to match. */
  lemma {:induction false} NoMatchAppend(rows: seq<IdValueTable>, e: IdValueTable, v: string)
    requires !HasValue(rows, v) && e.value != Some(v)
    ensures Matching(rows + [e], v) == []
  {
    if rows != [] {
      assert (rows + [e])[1..] == rows[1..] + [e];
      NoMatchAppend(rows[1..], e, v);
    }
  }

  /** `getAll`: the whole table, or the port's exception. */
  function GetAll(s: Store, fault: Option<string>): (r: Result<seq<IdValueTable>, Exception>)
    ensures r.Success? <==> fault.None?
    ensures r.Success? ==> r.value == s.rows
    ensures r.Failure? ==> r.error == OtherException(fault.value)
  {
    if fault.Some? then Failure(OtherException(fault.value)) else Success(s.rows)
  }

  /** Uniqueness is preserved by `create`, succeeding or failing, as long as
      the constructor keeps the value it is given. */
  lemma CreatePreservesUniqueness(kind: EntityKind, s: Store, v: string, fault: Option<string>)
    requires ValuesDistinct(s.rows)
    requires ConformsAt(kind, v)
    ensures ValuesDistinct(Create(kind, s, v, fault).store.rows)
  {
    var st := Create(kind, s, v, fault);
    if st.store != s {
      var rows := st.store.rows;
      forall i, j | 0 <= i < j < |rows|
        ensures rows[i].value != rows[j].value
      {
        if j == |s.rows| {
          assert rows[j].value == Some(v);
          assert rows[i] == s.rows[i];
        } else {
          assert rows[i] == s.rows[i] && rows[j] == s.rows[j];
        }
      }
    }
  }

  /** Creating a value and then looking it up finds the stored row. */
  lemma CreateThenGetByValue(kind: EntityKind, s: Store, v: string, fault: Option<string>)
    requires Create(kind, s, v, fault).result.Success?
    ensures GetByValue(Create(kind, s, v, fault).store, v) == Create(kind, s, v, fault).result
  {
  }

  /** Once `create(v)` has returned an entity, creating `v` again is a
      duplicate and writes nothing, whatever the port would have done. */
  lemma CreateTwiceIsDuplicate(kind: EntityKind, s: Store, v: string, fault: Option<string>, fault': Option<string>)
    requires Create(kind, s, v, fault).result.Success?
    requires Create(kind, s, v, fault).result.value.Some?
    ensures var s' := Create(kind, s, v, fault).store;
            Create(kind, s', v, fault') == Step(Failure(FactoryException(DuplicateMessage(kind))), s')
  {
    CreateThenGetByValue(kind, s, v, fault);
  }

  /** A successful `create(v)` adds exactly `v` to the listed values. */
  lemma ListingAfterCreate(kind: EntityKind, s: Store, v: string, fault: Option<string>)
    requires ConformsAt(kind, v)
    requires Create(kind, s, v, fault).result.Success?
    ensures var rows := GetAll(Create(kind, s, v, fault).store, None).value;
            |rows| == |s.rows| + 1 && Values(rows) == Values(s.rows) + {v}
  {
    var e := SetId(kind.construct(v).value, s.nextId);
    ValuesAppend(s.rows, e);
  }

  /** A fresh value created by a conventional constructor with no port
      fault is appended under the next id and returned. */
  lemma CreateFresh(kind: EntityKind, s: Store, v: string)
    requires !HasValue(s.rows, v)
    requires kind.construct(v) == Some(WithValue(v))
    ensures var e := IdValueTable(s.nextId, Some(v));
            Create(kind, s, v, None) == Step(Success(Some(e)), Store(s.rows + [e], s.nextId + 1))
  {
    var e := IdValueTable(s.nextId, Some(v));
    assert SetId(WithValue(v), s.nextId) == e;
    MatchingAppend(s.rows, e, v);
  }

  /** Appending a row adds its value to the table's values. */
  lemma ValuesAppend(rows: seq<IdValueTable>, e: IdValueTable)
    requires e.value.Some?
    ensures Values(rows + [e]) == Values(rows) + {e.value.value}
  {
    var all := rows + [e];
    forall x | x in Values(all)
      ensures x in Values(rows) + {e.value.value}
    {
      var i :| 0 <= i < |all| && all[i].value.Some? && all[i].value.value == x;
      if i < |rows| {
        assert all[i] == rows[i];
      }
    }
    forall x | x in Values(rows)
      ensures x in Values(all)
    {
      var i :| 0 <= i < |rows| && rows[i].value.Some? && rows[i].value.value == x;
      assert all[i] == rows[i];
    }
    assert all[|rows|] == e;
  }

  /** A value is stored exactly when it is among the table's values. */
  lemma HasValueIffListed(rows: seq<IdValueTable>, v: string)
    ensures HasValue(rows, v) <==> v in Values(rows)
  {
    if v in Values(rows) {
      var i :| 0 <= i < |rows| && rows[i].value.Some? && rows[i].value.value == v;
      assert rows[i].value == Some(v);
    }
  }

  /** The table after creating each of `vs` in turn, with no port faults. */
  function CreateAll(kind: EntityKind, s: Store, vs: seq<string>): Store
    decreases |vs|
  {
    if vs == [] then s else CreateAll(kind, Create(kind, s, vs[0], None).store, vs[1..])
  }

  /** One step of a run of creations: a fresh value is appended under the
      next id and joins the listed values. */
  lemma CreateFreshListed(name: string, s: Store, v: string)
    requires v !in Values(s.rows)
    ensures var e := IdValueTable(s.nextId, Some(v));
            && Create(ByConvention(name), s, v, None).store == Store(s.rows + [e], s.nextId + 1)
            && Values(s.rows + [e]) == Values(s.rows) + {v}
  {
    HasValueIffListed(s.rows, v);
    CreateFresh(ByConvention(name), s, v);
    ValuesAppend(s.rows, IdValueTable(s.nextId, Some(v)));
  }

  /** The tail of a run of pairwise-distinct values fresh for a table is
      pairwise distinct and fresh for the table extended by the head. */
  lemma TailStaysFresh(rows: seq<IdValueTable>, vs: seq<string>)
    requires vs != []
    requires forall i, j :: 0 <= i < j < |vs| ==> vs[i] != vs[j]
    requires forall i :: 0 <= i < |vs| ==> vs[i] !in Values(rows)
    ensures forall i, j :: 0 <= i < j < |vs[1..]| ==> vs[1..][i] != vs[1..][j]
    ensures forall i :: 0 <= i < |vs[1..]| ==> vs[1..][i] !in Values(rows) + {vs[0]}
    ensures (set x | x in vs) == {vs[0]} + (set x | x in vs[1..])
  {
    assert vs == [vs[0]] + vs[1..];
  }

  /** Listing completeness: creating pairwise-distinct fresh values with a
      conventional kind adds one row per value, and `getAll` then lists
      exactly the old values and the new ones. */
  lemma {:induction false} ListingCompleteness(name: string, s: Store, vs: seq<string>)
    requires forall i, j :: 0 <= i < j < |vs| ==> vs[i] != vs[j]
    requires forall i :: 0 <= i < |vs| ==> vs[i] !in Values(s.rows)
    ensures var s' := CreateAll(ByConvention(name), s, vs);
            && GetAll(s', None) == Success(s'.rows)
            && |s'.rows| == |s.rows| + |vs|
            && Values(s'.rows) == Values(s.rows) + (set v | v in vs)
    decreases |vs|
  {
    if vs != [] {
      var s1 := Store(s.rows + [IdValueTable(s.nextId, Some(vs[0]))], s.nextId + 1);
      CreateFreshListed(name, s, vs[0]);
      TailStaysFresh(s.rows, vs);
      ListingCompleteness(name, s1, vs[1..]);
    }
  }

  /** Uniqueness rests on the constructor convention: a constructor that
      ignores its argument lets `create` save a second copy of a stored
      value, and the lookup by the requested value then finds nothing. */
  lemma NonConformingConstructorBreaksUniqueness()
    ensures var kind := EntityKind("Tag", v => Some(WithValue("x")));
            var s := Store([IdValueTable(1, Some("x"))], 2);
            var st := Create(kind, s, "y", None);
            && ValuesDistinct(s.rows)
            && st.result == Success(None)
            && !ValuesDistinct(st.store.rows)
  {
    var kind := EntityKind("Tag", v => Some(WithValue("x")));
    var s := Store([IdValueTable(1, Some("x"))], 2);
    var saved := Store([IdValueTable(1, Some("x")), IdValueTable(2, Some("x"))], 3);
    assert !HasValue(s.rows, "y");
    assert s.rows + [IdValueTable(2, Some("x"))] == saved.rows;
    assert !HasValue(saved.rows, "y");
    assert saved.rows[0].value == saved.rows[1].value;
  }
}
