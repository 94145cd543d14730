/** lib/debug.js: a process-wide table of debugging data, category ->
    (name -> data).  An omitted argument of `get` or `clear` (None here)
    selects a whole level. */
module Debug {
  import opened Wrappers

  type Table<D> = map<string, map<string, D>>

  /** What `get` hands back: the whole table, one category, or one value. */
  datatype Found<D> = Everything(all: Table<D>) | Category(entries: map<string, D>) | Entry(data: D)

  /** `get(cat, name)`; None is JavaScript's `undefined`. */
  function Lookup<D>(t: Table<D>, cat: Option<string>, name: Option<string>): Option<Found<D>>
  {
    match cat
    case None => Some(Everything(t))
    case Some(c) =>
      if c !in t then None
      else match name
        case None => Some(Category(t[c]))
        case Some(n) => if n in t[c] then Some(Entry(t[c][n])) else None
  }

  /** The table after `set(cat, name, data)`. */
  function Stored<D>(t: Table<D>, cat: string, name: string, data: D): Table<D>
  {
    var entries := if cat in t then t[cat] else map[];
    t[cat := entries[name := data]]
  }

  /** The table after `clear(cat, name)`. */
  function Cleared<D>(t: Table<D>, cat: Option<string>, name: Option<string>): Table<D>
  {
    match cat
    case None => map[]
    case Some(c) =>
      if c !in t then t
      else match name
        case None => t - {c}
        case Some(n) => t[c := t[c] - {n}]
  }

  /** The module's `storage` and the three functions that use it. */
  class DebugStorage<D> {
    var storage: Table<D>

    constructor ()
      ensures storage == map[]
    {
      storage := map[];
    }

    method Get(cat: Option<string>, name: Option<string>) returns (rval: Option<Found<D>>)
      ensures rval == Lookup(storage, cat, name)
    {
      rval := None;
      if cat.None? {
        rval := Some(Everything(storage));
      } else if cat.value in storage {
        if name.None? {
          rval := Some(Category(storage[cat.value]));
        } else if name.value in storage[cat.value] {
          rval := Some(Entry(storage[cat.value][name.value]));
        }
      }
    }

    method Set(cat: string, name: string, data: D)
      modifies this
      ensures storage == Stored(old(storage), cat, name, data)
      ensures Lookup(storage, Some(cat), Some(name)) == Some(Entry(data))
    {
      if cat !in storage {
        storage := storage[cat := map[]];
      }
      storage := storage[cat := storage[cat][name := data]];
    }

    method Clear(cat: Option<string>, name: Option<string>)
      modifies this
      ensures storage == Cleared(old(storage), cat, name)
    {
      if cat.None? {
        storage := map[];
      } else if cat.value in storage {
        if name.None? {
          storage := storage - {cat.value};
        } else {
          storage := storage[cat.value := storage[cat.value] - {name.value}];
        }
      }
    }
  }

  // ---------------------------------------------------------------------
  // What set and clear promise, as seen through get

  /** `get(cat, name)` returns what `set(cat, name, data)` stored, whether
      the category or the name existed before or not. */
  lemma LookupStored<D>(t: Table<D>, cat: string, name: string, data: D)
    ensures Lookup(Stored(t, cat, name, data), Some(cat), Some(name)) == Some(Entry(data))
  {
  }

  /** `set` creates its category and touches no other entry: other
      categories and other names in `cat` read as before. */
  lemma StoredFrame<D>(t: Table<D>, cat: string, name: string, data: D)
    ensures cat in Stored(t, cat, name, data)
    ensures Stored(t, cat, name, data).Keys == t.Keys + {cat}
    ensures forall c, n :: c != cat ==> Lookup(Stored(t, cat, name, data), Some(c), n) == Lookup(t, Some(c), n)
    ensures forall n :: n != name && cat in t ==>
      Lookup(Stored(t, cat, name, data), Some(cat), Some(n)) == Lookup(t, Some(cat), Some(n))
    ensures forall n :: n != name && cat !in t ==> Lookup(Stored(t, cat, name, data), Some(cat), Some(n)) == None
  {
  }

  /** `get(cat)` and `get(cat, name)` of an absent category give `undefined`;
      `get()` gives the whole table. */
  lemma LookupLevels<D>(t: Table<D>, cat: string, name: Option<string>)
    ensures Lookup(t, None, name) == Some(Everything(t))
    ensures cat !in t ==> Lookup(t, Some(cat), name) == None
    ensures cat in t ==> Lookup(t, Some(cat), None) == Some(Category(t[cat]))
  {
  }

  /** `clear()` empties the table. */
  lemma ClearedAll<D>(t: Table<D>, name: Option<string>)
    ensures Cleared(t, None, name) == map[]
    ensures forall c, n :: Lookup(Cleared(t, None, name), Some(c), n) == None
  {
  }

  /** `clear(cat)` removes the category and nothing else. */
  lemma ClearedCategory<D>(t: Table<D>, cat: string)
    ensures Cleared(t, Some(cat), None).Keys == t.Keys - {cat}
    ensures forall n :: Lookup(Cleared(t, Some(cat), None), Some(cat), n) == None
    ensures forall c, n :: c != cat ==> Lookup(Cleared(t, Some(cat), None), Some(c), n) == Lookup(t, Some(c), n)
  {
  }

  /** `clear(cat, name)` removes that one name; the category stays, possibly
      empty, and every other entry reads as before. */
  lemma ClearedEntry<D>(t: Table<D>, cat: string, name: string)
    requires cat in t
    ensures Cleared(t, Some(cat), Some(name)).Keys == t.Keys
    ensures Lookup(Cleared(t, Some(cat), Some(name)), Some(cat), Some(name)) == None
    ensures Cleared(t, Some(cat), Some(name))[cat].Keys == t[cat].Keys - {name}
    ensures forall n :: n != name ==> Lookup(Cleared(t, Some(cat), Some(name)), Some(cat), Some(n)) == Lookup(t, Some(cat), Some(n))
    ensures forall c, n :: c != cat ==> Lookup(Cleared(t, Some(cat), Some(name)), Some(c), n) == Lookup(t, Some(c), n)
  {
  }

  /** `clear(cat, ...)` of an absent category changes nothing. */
  lemma ClearedAbsent<D>(t: Table<D>, cat: string, name: Option<string>)
    requires cat !in t
    ensures Cleared(t, Some(cat), name) == t
  {
  }

  /** Clearing a fresh entry undoes `set`: `clear(cat, name)` after
      `set(cat, name, d)` restores the table when `name` was new in an
      existing category, and `clear(cat)` restores it when `cat` was new. */
  lemma ClearUndoesStore<D>(t: Table<D>, cat: string, name: string, data: D)
    ensures cat in t && name !in t[cat] ==> Cleared(Stored(t, cat, name, data), Some(cat), Some(name)) == t
    ensures cat !in t ==> Cleared(Stored(t, cat, name, data), Some(cat), None) == t
  {
    var s := Stored(t, cat, name, data);
    if cat in t && name !in t[cat] {
      assert s[cat] - {name} == t[cat];
    }
    if cat !in t {
      assert s - {cat} == t;
    }
  }
}
