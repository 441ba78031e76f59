/**
 * The global `STRING_DICT` of main.py:13 and the handlers that use it:
 * insert (main.py:50-52,76), get (main.py:85-89), delete (main.py:165-167),
 * the filtering loop (main.py:100-127) and the natural-language filter
 * (main.py:132-156). The dictionary is insertion-ordered, so it is kept as a
 * map from digest to record together with the order of its keys.
 */
module Store {
  import opened Wrappers
  import opened Text
  import opened Analyzer
  import opened Filter
  import opened Translator

  datatype StoreError =
    | Conflict                        // 409: the digest is already a key
    | NotFound                        // 404: the digest is not a key
    | InvalidValue(e: AnalysisError)  // the analysis raised on a blank value

  /** The body of a listing response: `data`, `count`, `filters_applied`. */
  datatype Listing = Listing(data: seq<Record>, count: nat, filtersApplied: map<string, FilterValue>)

  /** A natural-language listing with its `interpreted_query`. */
  datatype NLListing = NLListing(listing: Listing, original: string, parsedFilters: Criteria)

  /** No two different strings share a digest: SHA-256 collisions are taken not to occur. */
  ghost predicate Injective(hash: string -> Digest) {
    forall a, b :: hash(a) == hash(b) ==> a == b
  }

  predicate Distinct(ks: seq<Digest>) {
    forall i, j :: 0 <= i < j < |ks| ==> ks[i] != ks[j]
  }

  /** The records of `m` in the order of `ks`: `STRING_DICT.values()`. */
  function ValuesOf(ks: seq<Digest>, m: map<Digest, Record>): (rs: seq<Record>)
    requires forall k :: k in ks ==> k in m
    ensures |rs| == |ks|
    ensures forall i :: 0 <= i < |ks| ==> rs[i] == m[ks[i]]
  {
    seq(|ks|, i requires 0 <= i < |ks| => m[ks[i]])
  }

  /** The position of a key in the key order. */
  function IndexOf(ks: seq<Digest>, k: Digest): (i: nat)
    requires k in ks
    ensures i < |ks| && ks[i] == k
    ensures forall j :: 0 <= j < i ==> ks[j] != k
  {
    if ks[0] == k then 0 else 1 + IndexOf(ks[1..], k)
  }

  /** A key appended to an order that lacks it is found at the end. */
  lemma IndexOfAppended(ks: seq<Digest>, k: Digest)
    requires k !in ks
    ensures IndexOf(ks + [k], k) == |ks|
  {
    var i := IndexOf(ks + [k], k);
  }

  /** Removing a key just added to a map that lacked it gives the map back. */
  lemma AddThenRemove(m: map<Digest, Record>, k: Digest, r: Record)
    requires k !in m
    ensures m[k := r] - {k} == m
  {
  }

  /** The keys of `m` are exactly the elements of `ks`. */
  ghost predicate SameKeys(ks: seq<Digest>, m: map<Digest, Record>) {
    forall k :: k in m <==> k in ks
  }

  /** Appending a new key keeps the order a listing of the keys, and appends its record to the values. */
  lemma AppendKey(ks: seq<Digest>, m: map<Digest, Record>, k: Digest, r: Record)
    requires Distinct(ks) && SameKeys(ks, m) && k !in m
    ensures Distinct(ks + [k]) && SameKeys(ks + [k], m[k := r])
    ensures ValuesOf(ks + [k], m[k := r]) == ValuesOf(ks, m) + [r]
  {
    var vs, ws := ValuesOf(ks, m), ValuesOf(ks + [k], m[k := r]);
    assert forall i :: 0 <= i < |ks| ==> ks[i] in m && ks[i] != k;
    assert forall i :: 0 <= i < |ks| ==> ws[i] == vs[i];
  }

  /** Removing the key at position `i` keeps the others distinct and in step with the map. */
  lemma RemoveKeyKeys(ks: seq<Digest>, m: map<Digest, Record>, i: nat)
    requires Distinct(ks) && SameKeys(ks, m) && i < |ks|
    ensures Distinct(ks[..i] + ks[i + 1..]) && SameKeys(ks[..i] + ks[i + 1..], m - {ks[i]})
  {
    var ks' := ks[..i] + ks[i + 1..];
    assert forall j :: 0 <= j < |ks'| ==> ks'[j] == if j < i then ks[j] else ks[j + 1];
    forall x | x in m - {ks[i]}
      ensures x in ks'
    {
      var j :| 0 <= j < |ks| && ks[j] == x;
      if j < i {
        assert ks'[j] == x;
      } else {
        assert ks'[j - 1] == x;
      }
    }
  }

  /** Removing the key at position `i` removes exactly its record and keeps the others in order. */
  lemma RemoveKey(ks: seq<Digest>, m: map<Digest, Record>, i: nat)
    requires Distinct(ks) && SameKeys(ks, m) && i < |ks|
    ensures var ks', m' := ks[..i] + ks[i + 1..], m - {ks[i]};
      && Distinct(ks') && SameKeys(ks', m')
      && ValuesOf(ks', m') == ValuesOf(ks, m)[..i] + ValuesOf(ks, m)[i + 1..]
  {
    RemoveKeyKeys(ks, m, i);
    var ks', m' := ks[..i] + ks[i + 1..], m - {ks[i]};
    var vs, ws := ValuesOf(ks, m), ValuesOf(ks', m');
    forall j | 0 <= j < |ks'|
      ensures ws[j] == (vs[..i] + vs[i + 1..])[j]
    {
      if j < i {
        assert ks'[j] == ks[j];
      } else {
        assert ks'[j] == ks[j + 1];
      }
    }
  }

  /** `r` is what `analyze_string` builds for its own value under key `k`. */
  ghost predicate IsAnalysis(k: Digest, r: Record) {
    NewRecord(r.value, k, r.createdAt) == Success(r)
  }

  /** Every record listed by `ks` satisfies `P` together with its key, checked from the last key back. */
  ghost predicate EveryEntry(ks: seq<Digest>, m: map<Digest, Record>, P: (Digest, Record) -> bool)
    requires forall k :: k in ks ==> k in m
    decreases |ks|
  {
    ks == [] || (EveryEntry(ks[..|ks| - 1], m, P) && P(ks[|ks| - 1], m[ks[|ks| - 1]]))
  }

  /** `EveryEntry` holds exactly when `P` holds at every position. */
  lemma {:induction false} EveryEntryIff(ks: seq<Digest>, m: map<Digest, Record>, P: (Digest, Record) -> bool)
    requires forall k :: k in ks ==> k in m
    ensures EveryEntry(ks, m, P) <==> forall j :: 0 <= j < |ks| ==> P(ks[j], m[ks[j]])
    decreases |ks|
  {
    if ks != [] {
      var front := ks[..|ks| - 1];
      EveryEntryIff(front, m, P);
      assert forall j :: 0 <= j < |front| ==> front[j] == ks[j];
    }
  }

  /** Appending a record that satisfies `P` under a fresh key keeps `P` true of every entry. */
  lemma EveryAppend(ks: seq<Digest>, m: map<Digest, Record>, k: Digest, r: Record, P: (Digest, Record) -> bool)
    requires SameKeys(ks, m) && k !in m && EveryEntry(ks, m, P) && P(k, r)
    ensures SameKeys(ks + [k], m[k := r]) && EveryEntry(ks + [k], m[k := r], P)
  {
    var ks', m' := ks + [k], m[k := r];
    EveryEntryIff(ks, m, P);
    EveryEntryIff(ks', m', P);
    forall j | 0 <= j < |ks'|
      ensures P(ks'[j], m'[ks'[j]])
    {
      if j < |ks| {
        assert ks'[j] == ks[j] && ks[j] in m && ks[j] != k;
      }
    }
  }

  /** Removing the key at position `i` keeps `P` true of every remaining entry. */
  lemma EveryRemove(ks: seq<Digest>, m: map<Digest, Record>, i: nat, P: (Digest, Record) -> bool)
    requires Distinct(ks) && SameKeys(ks, m) && i < |ks| && EveryEntry(ks, m, P)
    ensures SameKeys(ks[..i] + ks[i + 1..], m - {ks[i]}) && EveryEntry(ks[..i] + ks[i + 1..], m - {ks[i]}, P)
  {
    RemoveKeyKeys(ks, m, i);
    var ks', m' := ks[..i] + ks[i + 1..], m - {ks[i]};
    EveryEntryIff(ks, m, P);
    EveryEntryIff(ks', m', P);
    forall j | 0 <= j < |ks'|
      ensures P(ks'[j], m'[ks'[j]])
    {
      var j' := if j < i then j else j + 1;
      assert ks'[j] == ks[j'] && ks[j'] in m;
    }
  }

  /**
   * Every key is listed once in `ks`, and every record is stored under the
   * digest of its value, which is also its id.
   */
  ghost predicate Consistent(hash: string -> Digest, ks: seq<Digest>, m: map<Digest, Record>) {
    && Injective(hash)
    && Distinct(ks)
    && SameKeys(ks, m)
    && (forall k :: k in m ==> k == m[k].id == hash(m[k].value))
  }

  /**
   * Adding the record of a fresh key keeps the store consistent, appends the
   * record to the values, and keeps any property `P` of every entry that the
   * new record has too.
   */
  lemma AddEntry(hash: string -> Digest, ks: seq<Digest>, m: map<Digest, Record>, r: Record, P: (Digest, Record) -> bool)
    requires Consistent(hash, ks, m) && hash(r.value) !in m && r.id == hash(r.value)
    ensures Consistent(hash, ks + [r.id], m[r.id := r])
    ensures ValuesOf(ks + [r.id], m[r.id := r]) == ValuesOf(ks, m) + [r]
    ensures P(r.id, r) && EveryEntry(ks, m, P) ==> EveryEntry(ks + [r.id], m[r.id := r], P)
  {
    AppendKey(ks, m, r.id, r);
    if P(r.id, r) && EveryEntry(ks, m, P) {
      EveryAppend(ks, m, r.id, r, P);
    }
  }

  /**
   * Removing the key at position `i` keeps the store consistent, drops exactly
   * its record, and keeps any property `P` of every entry.
   */
  lemma RemoveEntry(hash: string -> Digest, ks: seq<Digest>, m: map<Digest, Record>, i: nat, P: (Digest, Record) -> bool)
    requires Consistent(hash, ks, m) && i < |ks|
    ensures Consistent(hash, ks[..i] + ks[i + 1..], m - {ks[i]})
    ensures ValuesOf(ks[..i] + ks[i + 1..], m - {ks[i]}) == ValuesOf(ks, m)[..i] + ValuesOf(ks, m)[i + 1..]
    ensures EveryEntry(ks, m, P) ==> EveryEntry(ks[..i] + ks[i + 1..], m - {ks[i]}, P)
  {
    RemoveKey(ks, m, i);
    if EveryEntry(ks, m, P) {
      EveryRemove(ks, m, i, P);
    }
  }

  class RecordStore {
    /** `generate_sha256_hash_string`, supplied by the caller. */
    const hash: string -> Digest
    var entries: map<Digest, Record>
    var order: seq<Digest>

    /**
     * Every key is listed once in `order`, and every record is stored under
     * the digest of its value, which is also its id.
     */
    ghost predicate Valid()
      reads this
    {
      Consistent(hash, order, entries)
    }

    /** Every record is what `analyze_string` builds for its own value: no partial record is stored. */
    ghost predicate Analyzed()
      reads this
      requires Valid()
    {
      EveryEntry(order, entries, IsAnalysis)
    }

    /** The stored records in insertion order. */
    ghost function Values(): seq<Record>
      reads this
      requires Valid()
    {
      ValuesOf(order, entries)
    }

    constructor (hash: string -> Digest)
      requires Injective(hash)
      ensures Valid() && Analyzed()
      ensures this.hash == hash && entries == map[] && order == []
    {
      this.hash := hash;
      entries := map[];
      order := [];
    }

    /** A store holds at most one record per string, and each id is the digest of its value. */
    lemma ValuesUnique()
      requires Valid()
      ensures forall i :: 0 <= i < |Values()| ==> Values()[i].id == hash(Values()[i].value)
      ensures forall i, j :: 0 <= i < j < |Values()| ==> Values()[i].value != Values()[j].value
    {
      var vs := Values();
      forall i | 0 <= i < |vs|
        ensures vs[i].id == hash(vs[i].value)
      {
        assert order[i] in entries;
      }
      forall i, j | 0 <= i < j < |vs|
        ensures vs[i].value != vs[j].value
      {
        assert order[i] in entries && order[j] in entries;
        assert order[i] != order[j];
      }
    }

    /**
     * `analyze_string`: a known digest is a conflict; a blank value makes the
     * analysis raise; otherwise the new record is appended under its digest.
     * A failing call leaves the store as it was.
     */
    method Insert(value: string, stamp: Stamp) returns (r: Result<Record, StoreError>)
      requires Valid()
      modifies this
      ensures Valid() && (old(Analyzed()) ==> Analyzed())
      ensures old(hash(value) in entries) ==>
        r == Failure(Conflict) && entries == old(entries) && order == old(order)
      ensures old(hash(value) !in entries) && !HasNonSpace(value) ==>
        r == Failure(InvalidValue(BlankValue)) && entries == old(entries) && order == old(order)
      ensures old(hash(value) !in entries) && HasNonSpace(value) ==>
        && r.Success?
        && Success(r.value) == NewRecord(value, hash(value), stamp)
        && entries == old(entries)[hash(value) := r.value]
        && order == old(order) + [hash(value)]
        && Values() == old(Values()) + [r.value]
    {
      var key := hash(value);
      if key in entries {
        return Failure(Conflict);
      }
      var made := NewRecord(value, key, stamp);
      if made.Failure? {
        return Failure(InvalidValue(made.error));
      }
      AddEntry(hash, order, entries, made.value, IsAnalysis);
      entries := entries[key := made.value];
      order := order + [key];
      r := Success(made.value);
    }

    /** `get_specific_string`: the record stored for `value`, if any; nothing changes. */
    method Get(value: string) returns (r: Result<Record, StoreError>)
      requires Valid()
      ensures r.Success? <==> hash(value) in entries
      ensures r.Success? ==> r.value == entries[hash(value)] && r.value.value == value
      ensures r.Failure? ==> r.error == NotFound
      ensures r.Success? <==> exists i :: 0 <= i < |Values()| && Values()[i].value == value
      ensures r.Success? && Analyzed() ==> IsAnalysis(hash(value), r.value)
    {
      var key := hash(value);
      if key in entries {
        r := Success(entries[key]);
        var i := IndexOf(order, key);
        assert Values()[i] == entries[key];
        EveryEntryIff(order, entries, IsAnalysis);
      } else {
        r := Failure(NotFound);
        forall i | 0 <= i < |Values()|
          ensures Values()[i].value != value
        {
          assert order[i] in entries;
        }
      }
    }

    /**
     * `delete_string`: pops the record stored for `value`; the others keep
     * their order. A missing key is NotFound and changes nothing.
     */
    method Delete(value: string) returns (r: Result<(), StoreError>)
      requires Valid()
      modifies this
      ensures Valid() && (old(Analyzed()) ==> Analyzed())
      ensures old(hash(value) !in entries) ==>
        r == Failure(NotFound) && entries == old(entries) && order == old(order)
      ensures old(hash(value) in entries) ==>
        var i := old(IndexOf(order, hash(value)));
        && r == Success(())
        && entries == old(entries) - {hash(value)}
        && order == old(order[..i] + order[i + 1..])
        && Values() == old(Values()[..i] + Values()[i + 1..])
    {
      var key := hash(value);
      if key !in entries {
        return Failure(NotFound);
      }
      var i := IndexOf(order, key);
      RemoveEntry(hash, order, entries, i, IsAnalysis);
      order := order[..i] + order[i + 1..];
      entries := entries - {key};
      r := Success(());
    }

    /**
     * `get_strings_filtered`: walks the values in order and keeps the records
     * that pass every supplied test; nothing changes.
     */
    method GetFiltered(c: Criteria) returns (listing: Listing)
      requires Valid()
      ensures listing.data == Select(Values(), c)
      ensures listing.count == |listing.data|
      ensures listing.filtersApplied == FiltersApplied(c)
    {
      var results: seq<Record> := [];
      for i := 0 to |order|
        invariant results == Select(Values()[..i], c)
      {
        var item := entries[order[i]];
        SelectAppend(Values()[..i], [item], c);
        assert Values()[..i + 1] == Values()[..i] + [item];
        if Matches(item, c) {
          results := results + [item];
        }
      }
      assert Values()[..|order|] == Values();
      listing := Listing(results, |results|, FiltersApplied(c));
    }

    /**
     * `filter_by_natural_language`: translates the query and, when that
     * succeeds, lists as `get_strings_filtered` does with the parsed criteria.
     */
    method FilterByNaturalLanguage(query: string) returns (r: Result<NLListing, NLError>)
      requires Valid()
      ensures Translate(query).Failure? ==> r == Failure(Translate(query).error)
      ensures Translate(query).Success? ==>
        var c := Translate(query).value;
        && r.Success?
        && r.value.original == query
        && r.value.parsedFilters == c
        && r.value.listing.data == Select(Values(), c)
        && r.value.listing.count == |r.value.listing.data|
        && r.value.listing.filtersApplied == FiltersApplied(c)
    {
      var parsed := Translate(query);
      if parsed.Failure? {
        return Failure(parsed.error);
      }
      var listing := GetFiltered(parsed.value);
      r := Success(NLListing(listing, query, parsed.value));
    }
  }

  /** A second insert of a stored value is a conflict and leaves the store as the first insert left it. */
  method InsertTwiceConflicts(store: RecordStore, value: string, t1: Stamp, t2: Stamp)
    returns (first: Result<Record, StoreError>, second: Result<Record, StoreError>)
    requires store.Valid() && store.hash(value) !in store.entries && HasNonSpace(value)
    modifies store
    ensures store.Valid()
    ensures first.Success? && first.value.id == store.hash(value)
    ensures second == Failure(Conflict)
    ensures store.entries == old(store.entries)[store.hash(value) := first.value]
    ensures store.order == old(store.order) + [store.hash(value)]
  {
    first := store.Insert(value, t1);
    second := store.Insert(value, t2);
  }

  /**
   * Inserting, deleting and inserting again yields the same id and properties
   * under a new creation stamp, and puts the record back at the end of the order.
   */
  method ReinsertKeepsIdentity(store: RecordStore, value: string, t1: Stamp, t2: Stamp)
    returns (first: Record, second: Record)
    requires store.Valid() && store.hash(value) !in store.entries && HasNonSpace(value)
    modifies store
    ensures store.Valid()
    ensures first.id == second.id == store.hash(value)
    ensures first.properties == second.properties
    ensures first.createdAt == t1 && second.createdAt == t2
    ensures store.entries == old(store.entries)[store.hash(value) := second]
    ensures store.order == old(store.order) + [store.hash(value)]
  {
    var key := store.hash(value);
    ghost var keys, records := store.order, store.entries;
    var r := store.Insert(value, t1);
    first := r.value;
    IndexOfAppended(keys, key);
    AddThenRemove(records, key, first);
    var gone := store.Delete(value);
    assert gone.Success? && store.order == keys;
    assert store.entries == records;
    r := store.Insert(value, t2);
    second := r.value;
    NewRecordDeterministic(value, key, t1, t2);
  }
}
