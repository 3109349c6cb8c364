/** The in-memory `database` dict and the routes that read and change it:
    `create_string`, `get_string`, `delete_string`, `list_strings` and
    `filter_by_natural_language`. */
module Store {
  import opened Wrappers
  import opened Text
  import opened Analyzer
  import opened Entries
  import opened Filter
  import opened Translator

  /** The refusals of the store routes: 400, 409 and 404. */
  datatype Error = InvalidValue | Conflict | NotFound

  /** The response of `filter_by_natural_language`: the listing plus the
      `interpreted_query` echo. */
  datatype NaturalLanguageResponse =
    NaturalLanguageResponse(listing: ListResponse, original: String, parsedFilters: Criteria)

  /** `e` is the entry `create_string` builds for a non-empty value, stored
      under `key`. */
  predicate Describes(hash: String -> Digest, key: Digest, e: Entry) {
    && e.value != []
    && e.id == key
    && key == hash(Trim(e.value))
    && e.properties == Analysis(hash, e.value)
  }

  predicate NoDuplicates(keys: seq<Digest>) {
    forall i, j :: 0 <= i < j < |keys| ==> keys[i] != keys[j]
  }

  /** The dict's contents and its insertion order agree, and every entry is
      keyed by the digest of its own stripped text. */
  ghost predicate Consistent(hash: String -> Digest, database: map<Digest, Entry>, order: seq<Digest>) {
    && (forall k :: k in database <==> k in order)
    && NoDuplicates(order)
    && (forall k :: k in database ==> Describes(hash, k, database[k]))
  }

  /** `database.values()`: the entries in insertion order. */
  function EntriesInOrder(database: map<Digest, Entry>, order: seq<Digest>): (r: seq<Entry>)
    requires forall k :: k in order ==> k in database
    ensures |r| == |order|
    ensures forall i :: 0 <= i < |order| ==> r[i] == database[order[i]]
  {
    if order == [] then [] else [database[order[0]]] + EntriesInOrder(database, order[1..])
  }

  /** `order` without `key`, the others keeping their order: what `del` does to
      the dict's insertion order. */
  function Without(order: seq<Digest>, key: Digest): (r: seq<Digest>)
    ensures forall k :: k in r <==> k in order && k != key
    ensures NoDuplicates(order) ==> NoDuplicates(r)
    ensures key !in order ==> r == order
    ensures key in order && NoDuplicates(order) ==> |r| == |order| - 1
  {
    if order == [] then []
    else
      var rest := Without(order[1..], key);
      assert NoDuplicates(order) ==> order[0] !in order[1..];
      if order[0] == key then rest else [order[0]] + rest
  }

  class Store {
    /** SHA-256 of the UTF-8 encoding, rendered in hexadecimal. */
    const hash: String -> Digest
    var database: map<Digest, Entry>
    var order: seq<Digest>

    ghost predicate Valid()
      reads this
    {
      Consistent(hash, database, order)
    }

    /** The entries in the order `database.values()` yields them. */
    function Values(): seq<Entry>
      reads this
      requires Valid()
    {
      EntriesInOrder(database, order)
    }

    /** The empty store of a freshly started process. */
    constructor (hash: String -> Digest)
      ensures Valid() && this.hash == hash
      ensures database == map[] && order == []
    {
      this.hash := hash;
      database := map[];
      order := [];
    }

    /** `create_string`: refuses an empty value, refuses a value whose stripped
        text is already stored, and otherwise adds exactly one entry, keyed by
        the digest of the stripped text and holding the value as submitted. */
    method CreateString(value: String, createdAt: Timestamp) returns (r: Result<Entry, Error>)
      requires Valid()
      modifies this
      ensures Valid()
      ensures value == [] ==> r == Failure(InvalidValue)
      ensures value != [] && hash(Trim(value)) in old(database) ==> r == Failure(Conflict)
      ensures r.Failure? ==> unchanged(this)
      ensures value != [] && hash(Trim(value)) !in old(database) ==>
        && r == Success(Entry(hash(Trim(value)), value, Analysis(hash, value), createdAt))
        && database == old(database)[hash(Trim(value)) := r.value]
        && order == old(order) + [hash(Trim(value))]
        && Values() == old(Values()) + [r.value]
    {
      if value == [] {
        return Failure(InvalidValue);
      }
      var analyzed := Analyze(hash, value);
      var key := analyzed.sha256Hash;
      if key in database {
        return Failure(Conflict);
      }
      var entry := Entry(key, value, analyzed, createdAt);
      assert key == hash(Trim(value)) && analyzed == Analysis(hash, value);
      assert Describes(hash, key, entry);
      Added(hash, database, order, key, entry);
      ghost var before := Values();
      database := database[key := entry];
      order := order + [key];
      assert Values() == before + [entry];
      r := Success(entry);
    }

    /** `get_string`: the entry stored under the digest of the stripped
        argument, or `NotFound`. */
    method GetString(value: String) returns (r: Result<Entry, Error>)
      requires Valid()
      ensures hash(Trim(value)) !in database ==> r == Failure(NotFound)
      ensures hash(Trim(value)) in database ==> r == Success(database[hash(Trim(value))])
      ensures r.Success? ==> r.value in Values() && r.value.id == hash(Trim(value))
      ensures r.Success? && Injective(hash) ==>
        Trim(r.value.value) == Trim(value) && r.value.properties == Analysis(hash, value)
    {
      var key := hash(Trim(value));
      if key !in database {
        return Failure(NotFound);
      }
      r := Success(database[key]);
      ValuesHoldEveryEntry(hash, database, order, key);
    }

    /** `delete_string`: removes the entry stored under the digest of the
        stripped argument, and only that one, or answers `NotFound`. */
    method DeleteString(value: String) returns (r: Result<(), Error>)
      requires Valid()
      modifies this
      ensures Valid()
      ensures hash(Trim(value)) !in old(database) ==> r == Failure(NotFound) && unchanged(this)
      ensures hash(Trim(value)) in old(database) ==>
        && r == Success(())
        && database == old(database) - {hash(Trim(value))}
        && order == Without(old(order), hash(Trim(value)))
        && hash(Trim(value)) !in database
    {
      var key := hash(Trim(value));
      if key !in database {
        return Failure(NotFound);
      }
      Removed(hash, database, order, key);
      database := database - {key};
      order := Without(order, key);
      r := Success(());
    }

    /** `list_strings`: the stored entries that satisfy every present
        criterion, in insertion order, with their count and the criteria echoed. */
    method ListStrings(c: Criteria) returns (r: ListResponse)
      requires Valid()
      ensures r.data == Select(Values(), c)
      ensures r.count == |r.data| && r.filtersApplied == c
    {
      r := Filter.ListStrings(Values(), c);
    }

    /** `filter_by_natural_language`: a query the translator refuses is refused
        with the translator's error; otherwise the listing for the translated
        criteria, echoing the query and the criteria. */
    method FilterByNaturalLanguage(query: String) returns (r: Result<NaturalLanguageResponse, ParseError>)
      requires Valid()
      ensures Translate(query).Failure? ==> r == Failure(Translate(query).error)
      ensures Translate(query).Success? ==>
        && r.Success?
        && r.value.listing.data == Select(Values(), Translate(query).value)
        && r.value.listing.count == |r.value.listing.data|
        && r.value.original == query
        && r.value.parsedFilters == r.value.listing.filtersApplied == Translate(query).value
    {
      match Translate(query)
      case Failure(e) =>
        r := Failure(e);
      case Success(parsed) =>
        var listing := ListStrings(parsed);
        r := Success(NaturalLanguageResponse(listing, query, parsed));
    }
  }

  // ---------------------------------------------------------------- lemmas

  /** Every stored entry is listed by `database.values()`. */
  lemma ValuesHoldEveryEntry(hash: String -> Digest, database: map<Digest, Entry>, order: seq<Digest>, key: Digest)
    requires Consistent(hash, database, order) && key in database
    ensures database[key] in EntriesInOrder(database, order)
  {
    var i :| 0 <= i < |order| && order[i] == key;
    assert EntriesInOrder(database, order)[i] == database[key];
  }

  /** Adding an entry under a new key keeps the store consistent and appends the
      entry to `database.values()`. */
  lemma Added(hash: String -> Digest, database: map<Digest, Entry>, order: seq<Digest>, key: Digest, entry: Entry)
    requires Consistent(hash, database, order) && key !in database && Describes(hash, key, entry)
    ensures Consistent(hash, database[key := entry], order + [key])
    ensures EntriesInOrder(database[key := entry], order + [key]) == EntriesInOrder(database, order) + [entry]
  {
    AddedDescribed(hash, database, key, entry);
    AddedKeys(database, order, key, entry);
    AppendedKey(order, key);
    AppendedEntry(database, order, key, entry);
  }

  lemma AddedDescribed(hash: String -> Digest, database: map<Digest, Entry>, key: Digest, entry: Entry)
    requires forall k :: k in database ==> Describes(hash, k, database[k])
    requires Describes(hash, key, entry)
    ensures var db := database[key := entry]; forall k :: k in db ==> Describes(hash, k, db[k])
  {
  }

  lemma AddedKeys(database: map<Digest, Entry>, order: seq<Digest>, key: Digest, entry: Entry)
    requires forall k :: k in database <==> k in order
    ensures forall k :: k in database[key := entry] <==> k in order + [key]
  {
  }

  lemma AppendedKey(order: seq<Digest>, key: Digest)
    requires NoDuplicates(order) && key !in order
    ensures NoDuplicates(order + [key])
  {
    var keys := order + [key];
    forall i, j | 0 <= i < j < |keys| ensures keys[i] != keys[j] {
      if j == |order| { assert keys[i] == order[i]; }
    }
  }

  lemma AppendedEntry(database: map<Digest, Entry>, order: seq<Digest>, key: Digest, entry: Entry)
    requires forall k :: k in order ==> k in database
    requires key !in order
    ensures EntriesInOrder(database[key := entry], order + [key]) == EntriesInOrder(database, order) + [entry]
  {
    var before, after := EntriesInOrder(database, order), EntriesInOrder(database[key := entry], order + [key]);
    assert forall i :: 0 <= i < |order| ==> after[i] == before[i];
  }

  /** Removing a stored key keeps the store consistent. */
  lemma Removed(hash: String -> Digest, database: map<Digest, Entry>, order: seq<Digest>, key: Digest)
    requires Consistent(hash, database, order) && key in database
    ensures Consistent(hash, database - {key}, Without(order, key))
  {
  }

  /** No two stored entries share a stripped text: the keys are distinct
      digests of the stripped texts. */
  lemma OneEntryPerText(hash: String -> Digest, database: map<Digest, Entry>, order: seq<Digest>)
    requires Consistent(hash, database, order)
    ensures forall i, j :: 0 <= i < j < |order| ==>
      Trim(EntriesInOrder(database, order)[i].value) != Trim(EntriesInOrder(database, order)[j].value)
  {
    var values := EntriesInOrder(database, order);
    forall i, j | 0 <= i < j < |order| ensures Trim(values[i].value) != Trim(values[j].value) {
      assert Describes(hash, order[i], values[i]);
      assert Describes(hash, order[j], values[j]);
    }
  }

  // ---------------------------------------------------------------- request sequences

  /** Creating a value and then fetching it by the same value returns the
      created entry, whose id is the digest and whose properties are the
      analysis of the value. */
  method CreateThenGet(store: Store, value: String, createdAt: Timestamp)
    returns (created: Result<Entry, Error>, fetched: Result<Entry, Error>)
    requires store.Valid() && value != [] && store.hash(Trim(value)) !in store.database
    modifies store
    ensures created.Success? && fetched == created
    ensures fetched.value.id == Analysis(store.hash, value).sha256Hash
    ensures fetched.value.properties == Analysis(store.hash, value)
  {
    created := store.CreateString(value, createdAt);
    fetched := store.GetString(value);
  }

  /** Creating the same stripped text twice succeeds once and then conflicts,
      leaving exactly the first entry under its key. */
  method CreateTwice(store: Store, first: String, second: String, createdAt: Timestamp)
    returns (r1: Result<Entry, Error>, r2: Result<Entry, Error>)
    requires store.Valid() && first != [] && second != []
    requires Trim(first) == Trim(second) && store.hash(Trim(first)) !in store.database
    modifies store
    ensures r1.Success? && r2 == Failure(Conflict)
    ensures store.database == old(store.database)[store.hash(Trim(first)) := r1.value]
  {
    r1 := store.CreateString(first, createdAt);
    r2 := store.CreateString(second, createdAt);
  }

  /** Deleting a stored value succeeds, and deleting or fetching it again
      answers `NotFound`. */
  method DeleteTwice(store: Store, value: String)
    returns (d1: Result<(), Error>, d2: Result<(), Error>, fetched: Result<Entry, Error>)
    requires store.Valid() && store.hash(Trim(value)) in store.database
    modifies store
    ensures d1 == Success(()) && d2 == Failure(NotFound) && fetched == Failure(NotFound)
    ensures store.database == old(store.database) - {store.hash(Trim(value))}
  {
    d1 := store.DeleteString(value);
    d2 := store.DeleteString(value);
    fetched := store.GetString(value);
  }
}
