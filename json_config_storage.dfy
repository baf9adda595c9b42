/**
 * `JsonFileConfigStorageService`: the same dictionary and error rules as the in-memory
 * store, loaded from a JSON list when the service is built and written back as the
 * whole list of values after every successful change.
 *
 * JSON (de)serialisation and the file system are not modelled: the storage file is a
 * ghost value holding the list of configs it contains (or nothing, or a JSON `null`).
 */
module JsonConfigStorage {
  import opened Wrappers
  import opened Config
  import opened ConfigStorage

  /** The storage file as the deserializer sees it. */
  datatype StoredFile = NoFile | NullList | Stored(configs: seq<VlessConfig>)

  /** No two configs in the list share an id. */
  predicate DistinctIds(list: seq<VlessConfig>) {
    forall i, j :: 0 <= i < j < |list| ==> list[i].id != list[j].id
  }

  /** The ids of a list of configs. */
  function Ids(list: seq<VlessConfig>): set<string> {
    set i | 0 <= i < |list| :: list[i].id
  }

  lemma IdsSnoc(list: seq<VlessConfig>)
    requires list != []
    ensures Ids(list) == Ids(list[..|list| - 1]) + {list[|list| - 1].id}
  {
    var init := list[..|list| - 1];
    forall k | k in Ids(list)
      ensures k in Ids(init) + {list[|list| - 1].id}
    {
      var i :| 0 <= i < |list| && list[i].id == k;
      if i < |list| - 1 {
        assert init[i] == list[i];
      }
    }
    forall k | k in Ids(init)
      ensures k in Ids(list)
    {
      var i :| 0 <= i < |init| && init[i].id == k;
      assert list[i] == init[i];
    }
  }

  /** `configs.ToDictionary(c => c.Id, c => c)`: keys in list order; the first repeated id throws. */
  function ToDictionary(list: seq<VlessConfig>): (r: Result<map<string, VlessConfig>, StorageError>)
    ensures r.Success? ==> Keyed(r.value) && r.value.Keys == Ids(list)
    ensures r.Failure? ==> r.error.DuplicateKey? && r.error.id in Ids(list)
  {
    if list == [] then Success(map[])
    else
      var init := list[..|list| - 1];
      var last := list[|list| - 1];
      assert Ids(list) == Ids(init) + {last.id};
      match ToDictionary(init)
      case Failure(e) => Failure(e)
      case Success(m) =>
        if last.id in m then Failure(DuplicateKey(last.id))
        else Success(m[last.id := last])
  }

  lemma DistinctIdsSnoc(list: seq<VlessConfig>)
    requires list != []
    ensures DistinctIds(list) <==> DistinctIds(list[..|list| - 1]) && list[|list| - 1].id !in Ids(list[..|list| - 1])
  {
    var init := list[..|list| - 1];
    var last := list[|list| - 1];
    if DistinctIds(list) {
      assert forall i :: 0 <= i < |init| ==> init[i] == list[i];
    }
    if DistinctIds(init) && last.id !in Ids(init) {
      forall i, j | 0 <= i < j < |list|
        ensures list[i].id != list[j].id
      {
        if j == |list| - 1 {
          assert list[i].id == init[i].id && init[i].id in Ids(init);
        } else {
          assert list[i] == init[i] && list[j] == init[j];
        }
      }
    }
  }

  /** Loading succeeds exactly for lists without a repeated id, and then holds each config under its id. */
  lemma {:induction false} ToDictionaryDistinct(list: seq<VlessConfig>)
    ensures ToDictionary(list).Success? <==> DistinctIds(list)
    ensures ToDictionary(list).Success? ==>
      |ToDictionary(list).value| == |list|
      && forall i :: 0 <= i < |list| ==> ToDictionary(list).value[list[i].id] == list[i]
  {
    if list != [] {
      var init := list[..|list| - 1];
      var last := list[|list| - 1];
      ToDictionaryDistinct(init);
      IdsSnoc(list);
      DistinctIdsSnoc(list);
      if ToDictionary(list).Success? {
        var m := ToDictionary(init).value;
        assert |m[last.id := last]| == |m| + 1;
        forall i | 0 <= i < |list|
          ensures ToDictionary(list).value[list[i].id] == list[i]
        {
          if i < |list| - 1 {
            assert list[i] == init[i];
          }
        }
      }
    }
  }

  /** `LoadConfigsFromFile` */
  function LoadConfigs(file: StoredFile): (r: Result<map<string, VlessConfig>, StorageError>)
    ensures file.NoFile? || file.NullList? ==> r == Success(map[])
    ensures r.Success? ==> Keyed(r.value)
  {
    match file
    case NoFile => Success(map[])
    case NullList => Success(map[])
    case Stored(list) => ToDictionary(list)
  }

  /** What a save writes is read back as the same dictionary. */
  lemma LoadSaved(m: map<string, VlessConfig>, vs: seq<VlessConfig>)
    requires Keyed(m) && ListsValues(m, vs)
    ensures LoadConfigs(Stored(vs)) == Success(m)
  {
    ToDictionaryDistinct(vs);
    var d := ToDictionary(vs).value;
    SameDictionary(m, d, vs);
  }

  /** A dictionary keyed by the ids of a list of `m`'s values, holding each under its id, is `m`. */
  lemma SameDictionary(m: map<string, VlessConfig>, d: map<string, VlessConfig>, vs: seq<VlessConfig>)
    requires Keyed(m) && ListsValues(m, vs)
    requires d.Keys == Ids(vs) && forall i :: 0 <= i < |vs| ==> d[vs[i].id] == vs[i]
    ensures d == m
  {
    forall k | k in m
      ensures k in d && d[k] == m[k]
    {
      var i :| 0 <= i < |vs| && vs[i] == m[k];
      assert vs[i].id == k;
    }
    forall k | k in d
      ensures k in m
    {
      var i :| 0 <= i < |vs| && vs[i].id == k;
    }
  }

  class JsonFileConfigStorage {
    var configs: map<string, VlessConfig>
    /** The storage file's contents. */
    ghost var file: StoredFile

    /** Every config sits under its own id (loaded ids may be blank; added ones never are). */
    predicate Valid()
      reads this
    {
      Keyed(configs)
    }

    /** The service over a dictionary already loaded from `file`. */
    constructor(loaded: map<string, VlessConfig>, ghost from: StoredFile)
      requires LoadConfigs(from) == Success(loaded)
      ensures Valid() && configs == loaded && file == from
    {
      configs := loaded;
      file := from;
    }

    /** `SaveConfigsToFileAsync`: write the full list of values. */
    method Save()
      requires Valid()
      modifies this
      ensures Valid() && configs == old(configs)
      ensures file.Stored? && ListsValues(configs, file.configs)
      ensures LoadConfigs(file) == Success(configs)
    {
      var vs := ListValues(configs);
      file := Stored(vs);
      LoadSaved(configs, vs);
    }

    method AddConfig(config: Option<VlessConfig>) returns (r: Outcome<StorageError>)
      requires Valid()
      modifies this
      ensures Valid()
      ensures AddTo(old(configs), config).Failure? ==>
        r == Fail(AddTo(old(configs), config).error) && configs == old(configs) && file == old(file)
      ensures AddTo(old(configs), config).Success? ==>
        r == Pass && configs == AddTo(old(configs), config).value && LoadConfigs(file) == Success(configs)
    {
      var next := AddTo(configs, config);
      if next.Failure? {
        return Fail(next.error);
      }
      configs := next.value;
      Save();
      r := Pass;
    }

    method UpdateConfig(config: Option<VlessConfig>) returns (r: Outcome<StorageError>)
      requires Valid()
      modifies this
      ensures Valid()
      ensures UpdateIn(old(configs), config).Failure? ==>
        r == Fail(UpdateIn(old(configs), config).error) && configs == old(configs) && file == old(file)
      ensures UpdateIn(old(configs), config).Success? ==>
        r == Pass && configs == UpdateIn(old(configs), config).value && LoadConfigs(file) == Success(configs)
    {
      var next := UpdateIn(configs, config);
      if next.Failure? {
        return Fail(next.error);
      }
      configs := next.value;
      Save();
      r := Pass;
    }

    method RemoveConfig(id: string) returns (r: Outcome<StorageError>)
      requires Valid()
      modifies this
      ensures Valid()
      ensures RemoveFrom(old(configs), id).Failure? ==>
        r == Fail(RemoveFrom(old(configs), id).error) && configs == old(configs) && file == old(file)
      ensures RemoveFrom(old(configs), id).Success? ==>
        r == Pass && configs == RemoveFrom(old(configs), id).value && LoadConfigs(file) == Success(configs)
    {
      var next := RemoveFrom(configs, id);
      if next.Failure? {
        return Fail(next.error);
      }
      configs := next.value;
      Save();
      r := Pass;
    }

    method GetConfig(id: string) returns (r: Result<VlessConfig, StorageError>)
      ensures r == GetFrom(configs, id)
    {
      r := GetFrom(configs, id);
    }

    method GetAllConfigs() returns (vs: seq<VlessConfig>)
      requires Valid()
      ensures ListsValues(configs, vs)
    {
      vs := ListValues(configs);
    }

    method ConfigExists(id: string) returns (r: Result<bool, StorageError>)
      ensures r == ExistsIn(configs, id)
    {
      r := ExistsIn(configs, id);
    }
  }

  /**
   * The service's constructor: load the file; a list with a repeated id makes
   * construction throw.
   */
  method Open(file: StoredFile) returns (r: Result<JsonFileConfigStorage, StorageError>)
    ensures r.Failure? <==> LoadConfigs(file).Failure?
    ensures r.Failure? ==> r.error == LoadConfigs(file).error && r.error.DuplicateKey?
    ensures r.Success? ==>
      fresh(r.value) && r.value.Valid() && r.value.file == file && Success(r.value.configs) == LoadConfigs(file)
  {
    var loaded := LoadConfigs(file);
    if loaded.Failure? {
      return Failure(loaded.error);
    }
    var s := new JsonFileConfigStorage(loaded.value, file);
    r := Success(s);
  }
}
