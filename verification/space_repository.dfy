/** The queries of SpaceRepository as filters over the space table. */
module SpaceRepository {
  import opened Wrappers
  import opened Model
  import opened Tables

  type Table = map<nat, Space>

  /** findByAvailable; a null argument finds the spaces whose flag is null. */
  function FindByAvailable(table: Table, available: Option<bool>): (rows: Table)
    ensures SubTable(rows, table)
    ensures forall id :: id in table ==> (id in rows <==> table[id].available == available)
  {
    map id | id in table && table[id].available == available :: table[id]
  }

  /** findByType. */
  function FindByType(table: Table, spaceType: Option<SpaceType>): (rows: Table)
    ensures SubTable(rows, table)
    ensures forall id :: id in table ==> (id in rows <==> table[id].spaceType == spaceType)
  {
    map id | id in table && table[id].spaceType == spaceType :: table[id]
  }

  /** The WHERE clause of findAvailableSpacesWithFilters: each non-null filter
      must hold of a non-null column, and the space must be available. */
  predicate MatchesFilters(s: Space, spaceType: Option<SpaceType>, minCapacity: Option<int>, maxPrice: Option<Cents>) {
    && (spaceType.None? || s.spaceType == spaceType)
    && (minCapacity.None? || (s.capacity.Some? && s.capacity.value >= minCapacity.value))
    && (maxPrice.None? || (s.pricePerHour.Some? && s.pricePerHour.value <= maxPrice.value))
    && s.available == Some(true)
  }

  /** findAvailableSpacesWithFilters. */
  function FindAvailableSpacesWithFilters(table: Table, spaceType: Option<SpaceType>,
                                          minCapacity: Option<int>, maxPrice: Option<Cents>): (rows: Table)
    ensures SubTable(rows, table)
    ensures forall id :: id in rows ==> rows[id].available == Some(true)
    ensures forall id :: id in rows && spaceType.Some? ==> rows[id].spaceType == spaceType
    ensures forall id :: id in rows && minCapacity.Some? ==>
      rows[id].capacity.Some? && rows[id].capacity.value >= minCapacity.value
    ensures forall id :: id in rows && maxPrice.Some? ==>
      rows[id].pricePerHour.Some? && rows[id].pricePerHour.value <= maxPrice.value
    ensures forall id :: id in table ==>
      (id in rows <==> MatchesFilters(table[id], spaceType, minCapacity, maxPrice))
  {
    map id | id in table && MatchesFilters(table[id], spaceType, minCapacity, maxPrice) :: table[id]
  }

  /** With all filters null the query is findByAvailable(true); in general its
      answer is part of that one. */
  lemma FiltersNarrowAvailable(table: Table, spaceType: Option<SpaceType>, minCapacity: Option<int>, maxPrice: Option<Cents>)
    ensures FindAvailableSpacesWithFilters(table, None, None, None) == FindByAvailable(table, Some(true))
    ensures SubTable(FindAvailableSpacesWithFilters(table, spaceType, minCapacity, maxPrice),
                     FindByAvailable(table, Some(true)))
  {
  }

  /** The bounds are inclusive: a space at exactly the minimum capacity and
      the maximum price passes. */
  lemma BoundsAreInclusive(table: Table, id: nat, spaceType: Option<SpaceType>)
    requires id in table
    requires table[id].available == Some(true)
    requires spaceType.None? || table[id].spaceType == spaceType
    requires table[id].capacity.Some? && table[id].pricePerHour.Some?
    ensures id in FindAvailableSpacesWithFilters(table, spaceType, table[id].capacity, table[id].pricePerHour)
  {
  }
}
