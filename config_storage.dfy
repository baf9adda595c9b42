/**
 * The configuration stores: a dictionary from config id to config, with the error
 * rules of `InMemoryConfigStorageService` (shared with the JSON-file store).
 *
 * The pure functions below say what each operation does to the dictionary; the class
 * is the in-memory service, whose methods update its `configs` field accordingly.
 * C# exceptions are `Failure`/`Fail` values.
 */
module ConfigStorage {
  import opened Wrappers
  import opened Text
  import opened Config

  /** The exceptions the stores throw. */
  datatype StorageError =
    | NullConfig             // ArgumentNullException
    | EmptyId                // ArgumentException
    | AlreadyExists(id: string)  // InvalidOperationException
    | NotFound(id: string)       // KeyNotFoundException
    | DuplicateKey(id: string)   // ArgumentException from ToDictionary

  function StorageErrorMessage(e: StorageError): string {
    match e
    case NullConfig => "Value cannot be null. (Parameter 'config')"
    case EmptyId => "Config ID cannot be empty"
    case AlreadyExists(id) => "Config with ID " + id + " already exists"
    case NotFound(id) => "Config with ID " + id + " not found"
    case DuplicateKey(id) => "An item with the same key has already been added. Key: " + id
  }

  /** `string.IsNullOrWhiteSpace` on an id. */
  predicate Blank(id: string) {
    IsNullOrWhiteSpace(Some(id))
  }

  /** Every config is stored under its own id. */
  predicate Keyed(m: map<string, VlessConfig>) {
    forall k :: k in m ==> m[k].id == k
  }

  // ---------------------------------------------------------------- the operations on the dictionary

  /** `AddConfigAsync` */
  function AddTo(m: map<string, VlessConfig>, config: Option<VlessConfig>): (r: Result<map<string, VlessConfig>, StorageError>)
    ensures config.None? ==> r == Failure(NullConfig)
    ensures config.Some? && Blank(config.value.id) ==> r == Failure(EmptyId)
    ensures config.Some? && !Blank(config.value.id) && config.value.id in m ==> r == Failure(AlreadyExists(config.value.id))
    ensures r.Success? <==> config.Some? && !Blank(config.value.id) && config.value.id !in m
    ensures r.Success? ==>
      && r.value.Keys == m.Keys + {config.value.id}
      && r.value[config.value.id] == config.value
      && (forall k :: k in m ==> r.value[k] == m[k])
  {
    if config.None? then Failure(NullConfig)
    else if Blank(config.value.id) then Failure(EmptyId)
    else if config.value.id in m then Failure(AlreadyExists(config.value.id))
    else Success(m[config.value.id := config.value])
  }

  /** `UpdateConfigAsync` */
  function UpdateIn(m: map<string, VlessConfig>, config: Option<VlessConfig>): (r: Result<map<string, VlessConfig>, StorageError>)
    ensures config.None? ==> r == Failure(NullConfig)
    ensures config.Some? && Blank(config.value.id) ==> r == Failure(EmptyId)
    ensures config.Some? && !Blank(config.value.id) && config.value.id !in m ==> r == Failure(NotFound(config.value.id))
    ensures r.Success? <==> config.Some? && !Blank(config.value.id) && config.value.id in m
    ensures r.Success? ==>
      && r.value.Keys == m.Keys
      && r.value[config.value.id] == config.value
      && (forall k :: k in m && k != config.value.id ==> r.value[k] == m[k])
  {
    if config.None? then Failure(NullConfig)
    else if Blank(config.value.id) then Failure(EmptyId)
    else if config.value.id !in m then Failure(NotFound(config.value.id))
    else Success(m[config.value.id := config.value])
  }

  /** `RemoveConfigAsync` */
  function RemoveFrom(m: map<string, VlessConfig>, id: string): (r: Result<map<string, VlessConfig>, StorageError>)
    ensures Blank(id) ==> r == Failure(EmptyId)
    ensures !Blank(id) && id !in m ==> r == Failure(NotFound(id))
    ensures r.Success? <==> !Blank(id) && id in m
    ensures r.Success? ==> r.value.Keys == m.Keys - {id} && (forall k :: k in r.value ==> r.value[k] == m[k])
  {
    if Blank(id) then Failure(EmptyId)
    else if id !in m then Failure(NotFound(id))
    else Success(m - {id})
  }

  /** `GetConfigAsync` */
  function GetFrom(m: map<string, VlessConfig>, id: string): (r: Result<VlessConfig, StorageError>)
    ensures Blank(id) ==> r == Failure(EmptyId)
    ensures r.Success? <==> !Blank(id) && id in m
    ensures r.Success? ==> r.value == m[id]
    ensures !Blank(id) && id !in m ==> r == Failure(NotFound(id))
  {
    if Blank(id) then Failure(EmptyId)
    else if id !in m then Failure(NotFound(id))
    else Success(m[id])
  }

  /** `ConfigExistsAsync` */
  function ExistsIn(m: map<string, VlessConfig>, id: string): (r: Result<bool, StorageError>)
    ensures Blank(id) <==> r == Failure(EmptyId)
    ensures r.Success? ==> (r.value <==> id in m)
  {
    if Blank(id) then Failure(EmptyId) else Success(id in m)
  }

  // ---------------------------------------------------------------- how the operations combine

  /** Every successful mutation keeps each config under its own id, and the ids non-blank. */
  lemma MutationsKeepKeyed(m: map<string, VlessConfig>, config: Option<VlessConfig>, id: string)
    requires Keyed(m) && forall k :: k in m ==> !Blank(k)
    ensures AddTo(m, config).Success? ==> Keyed(AddTo(m, config).value) && forall k :: k in AddTo(m, config).value ==> !Blank(k)
    ensures UpdateIn(m, config).Success? ==> Keyed(UpdateIn(m, config).value) && forall k :: k in UpdateIn(m, config).value ==> !Blank(k)
    ensures RemoveFrom(m, id).Success? ==> Keyed(RemoveFrom(m, id).value) && forall k :: k in RemoveFrom(m, id).value ==> !Blank(k)
  {
  }

  /** Add, then Get by the new id, returns the added config; Remove then undoes the Add. */
  lemma AddThenGetThenRemove(m: map<string, VlessConfig>, c: VlessConfig)
    requires AddTo(m, Some(c)).Success?
    ensures GetFrom(AddTo(m, Some(c)).value, c.id) == Success(c)
    ensures ExistsIn(AddTo(m, Some(c)).value, c.id) == Success(true)
    ensures RemoveFrom(AddTo(m, Some(c)).value, c.id) == Success(m)
    ensures AddTo(AddTo(m, Some(c)).value, Some(c)) == Failure(AlreadyExists(c.id))
  {
    var m' := AddTo(m, Some(c)).value;
    assert m' - {c.id} == m;
  }

  /** After Update, Get returns the new config; a second identical Update changes nothing. */
  lemma UpdateThenGet(m: map<string, VlessConfig>, c: VlessConfig)
    requires UpdateIn(m, Some(c)).Success?
    ensures GetFrom(UpdateIn(m, Some(c)).value, c.id) == Success(c)
    ensures UpdateIn(UpdateIn(m, Some(c)).value, Some(c)) == UpdateIn(m, Some(c))
  {
    var m' := UpdateIn(m, Some(c)).value;
    assert m'[c.id := c] == m';
  }

  /** After Remove, the id no longer exists, and a second Remove fails with not-found. */
  lemma RemoveThenExists(m: map<string, VlessConfig>, id: string)
    requires RemoveFrom(m, id).Success?
    ensures ExistsIn(RemoveFrom(m, id).value, id) == Success(false)
    ensures RemoveFrom(RemoveFrom(m, id).value, id) == Failure(NotFound(id))
    ensures GetFrom(RemoveFrom(m, id).value, id) == Failure(NotFound(id))
  {
  }

  // ---------------------------------------------------------------- the list of values

  /** `vs` lists the dictionary's values: each once, and nothing else. */
  predicate ListsValues(m: map<string, VlessConfig>, vs: seq<VlessConfig>) {
    && |vs| == |m|
    && (forall i :: 0 <= i < |vs| ==> vs[i].id in m && m[vs[i].id] == vs[i])
    && (forall k :: k in m ==> m[k] in vs)
    && (forall i, j :: 0 <= i < j < |vs| ==> vs[i].id != vs[j].id)
  }

  /** `vs` lists the values under the keys in `listed`, each once. */
  predicate ListsSome(m: map<string, VlessConfig>, vs: seq<VlessConfig>, listed: set<string>) {
    && listed <= m.Keys
    && |vs| == |listed|
    && (forall i :: 0 <= i < |vs| ==> vs[i].id in listed && m[vs[i].id] == vs[i])
    && (forall k :: k in listed ==> m[k] in vs)
    && (forall i, j :: 0 <= i < j < |vs| ==> vs[i].id != vs[j].id)
  }

  /** Appending the value under one more key keeps the list exact. */
  lemma ListsOneMore(m: map<string, VlessConfig>, vs: seq<VlessConfig>, listed: set<string>, k: string)
    requires Keyed(m) && ListsSome(m, vs, listed) && k in m && k !in listed
    ensures ListsSome(m, vs + [m[k]], listed + {k})
  {
    assert |listed + {k}| == |listed| + 1;
    var vs' := vs + [m[k]];
    forall i | 0 <= i < |vs'| ensures vs'[i].id in listed + {k} && m[vs'[i].id] == vs'[i] {
      if i < |vs| { assert vs'[i] == vs[i]; }
    }
    forall k' | k' in listed + {k} ensures m[k'] in vs' {
      if k' in listed { assert m[k'] in vs; }
      else { assert vs'[|vs|] == m[k]; }
    }
    forall i, j | 0 <= i < j < |vs'| ensures vs'[i].id != vs'[j].id {
      if j < |vs| { assert vs'[i] == vs[i] && vs'[j] == vs[j]; }
      else { assert vs'[i] == vs[i]; }
    }
  }

  /** `_configs.Values`, in some order: one pass over the keys. */
  method ListValues(m: map<string, VlessConfig>) returns (vs: seq<VlessConfig>)
    requires Keyed(m)
    ensures ListsValues(m, vs)
  {
    var remaining := m.Keys;
    ghost var listed: set<string> := {};
    vs := [];
    while remaining != {}
      invariant remaining <= m.Keys && listed == m.Keys - remaining
      invariant ListsSome(m, vs, listed)
      decreases remaining
    {
      var k :| k in remaining;
      ListsOneMore(m, vs, listed, k);
      vs := vs + [m[k]];
      listed := listed + {k};
      remaining := remaining - {k};
    }
    ListsAll(m, vs, listed, remaining);
  }

  lemma ListsAll(m: map<string, VlessConfig>, vs: seq<VlessConfig>, listed: set<string>, remaining: set<string>)
    requires remaining == {} && listed == m.Keys - remaining && ListsSome(m, vs, listed)
    ensures ListsValues(m, vs)
  {
    assert listed == m.Keys;
    assert |m| == |m.Keys|;
  }

  // ---------------------------------------------------------------- the in-memory service

  class InMemoryConfigStorage {
    var configs: map<string, VlessConfig>

    /** Every stored config sits under its own, non-blank id. */
    predicate Valid()
      reads this
    {
      Keyed(configs) && forall k :: k in configs ==> !Blank(k)
    }

    constructor()
      ensures Valid() && configs == map[]
    {
      configs := map[];
    }

    method AddConfig(config: Option<VlessConfig>) returns (r: Outcome<StorageError>)
      requires Valid()
      modifies this
      ensures Valid()
      ensures AddTo(old(configs), config).Failure? ==> r == Fail(AddTo(old(configs), config).error) && configs == old(configs)
      ensures AddTo(old(configs), config).Success? ==> r == Pass && configs == AddTo(old(configs), config).value
    {
      var next := AddTo(configs, config);
      if next.Failure? {
        return Fail(next.error);
      }
      MutationsKeepKeyed(configs, config, "");
      configs := next.value;
      r := Pass;
    }

    method UpdateConfig(config: Option<VlessConfig>) returns (r: Outcome<StorageError>)
      requires Valid()
      modifies this
      ensures Valid()
      ensures UpdateIn(old(configs), config).Failure? ==> r == Fail(UpdateIn(old(configs), config).error) && configs == old(configs)
      ensures UpdateIn(old(configs), config).Success? ==> r == Pass && configs == UpdateIn(old(configs), config).value
    {
      var next := UpdateIn(configs, config);
      if next.Failure? {
        return Fail(next.error);
      }
      MutationsKeepKeyed(configs, config, "");
      configs := next.value;
      r := Pass;
    }

    method RemoveConfig(id: string) returns (r: Outcome<StorageError>)
      requires Valid()
      modifies this
      ensures Valid()
      ensures RemoveFrom(old(configs), id).Failure? ==> r == Fail(RemoveFrom(old(configs), id).error) && configs == old(configs)
      ensures RemoveFrom(old(configs), id).Success? ==> r == Pass && configs == RemoveFrom(old(configs), id).value
    {
      var next := RemoveFrom(configs, id);
      if next.Failure? {
        return Fail(next.error);
      }
      MutationsKeepKeyed(configs, None, id);
      configs := next.value;
      r := Pass;
    }

    method GetConfig(id: string) returns (r: Result<VlessConfig, StorageError>)
      ensures r == GetFrom(configs, id)
    {
      r := GetFrom(configs, id);
    }

    method GetAllConfigs() returns (vs: seq<VlessConfig>)
      requires Valid()
      ensures ListsValues(configs, vs)
    {
      vs := ListValues(configs);
    }

    method ConfigExists(id: string) returns (r: Result<bool, StorageError>)
      ensures r == ExistsIn(configs, id)
    {
      r := ExistsIn(configs, id);
    }
  }
}
