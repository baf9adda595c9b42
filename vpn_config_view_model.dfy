/**
 * The main page's view model, reduced to the parts with logic of their own: the
 * bounded sample buffer behind the speed chart, the rule that decides whether a
 * connection status replaces the status line, and the add and delete commands over
 * the configuration store the application registers (the JSON-file store).
 */
module VpnConfigViewModel {
  import opened Wrappers
  import opened Text
  import opened Config
  import opened ConfigStorage
  import opened JsonConfigStorage

  // ---------------------------------------------------------------- CircularBuffer<T>

  /** What one `Add` leaves in the list: the oldest element goes first when the list is at capacity. */
  function Pushed<T>(items: seq<T>, capacity: int, item: T): (r: Option<seq<T>>)
    ensures r.None? <==> |items| >= capacity && items == []
    ensures r.Some? ==> |r.value| >= 1 && r.value[|r.value| - 1] == item
    ensures r.Some? && |items| < capacity ==> r.value[..|r.value| - 1] == items
    ensures r.Some? && |items| >= capacity ==> r.value[..|r.value| - 1] == items[1..]
  {
    if |items| >= capacity then
      if items == [] then None else Some(items[1..] + [item])
    else Some(items + [item])
  }

  /** `Add` applied to each of `xs` in turn, from `items`; `None` once an `Add` throws. */
  function PushedAll<T>(items: seq<T>, capacity: int, xs: seq<T>): Option<seq<T>>
    decreases |xs|
  {
    if xs == [] then Some(items)
    else match Pushed(items, capacity, xs[0])
      case None => None
      case Some(next) => PushedAll(next, capacity, xs[1..])
  }

  /** The newest `capacity` elements of `s`, or all of them. */
  function Newest<T>(s: seq<T>, capacity: nat): (r: seq<T>)
    ensures |r| == if |s| < capacity then |s| else capacity
  {
    if |s| <= capacity then s else s[|s| - capacity..]
  }

  /**
   * With a positive capacity, a buffer holding the newest elements of `prefix` ends up,
   * after adding `xs`, holding the newest elements of `prefix + xs`; in particular it
   * never holds more than `capacity`.
   */
  lemma {:induction false} PushedAllKeepsNewest<T>(prefix: seq<T>, capacity: int, xs: seq<T>)
    requires capacity >= 1
    ensures PushedAll(Newest(prefix, capacity), capacity, xs) == Some(Newest(prefix + xs, capacity))
    decreases |xs|
  {
    if xs != [] {
      PushedNewest(prefix, capacity, xs[0]);
      PushedAllKeepsNewest(prefix + [xs[0]], capacity, xs[1..]);
      assert prefix + [xs[0]] + xs[1..] == prefix + xs;
    } else {
      assert prefix + xs == prefix;
    }
  }

  /** One `Add` to a buffer holding the newest elements of `prefix` holds the newest of `prefix + [x]`. */
  lemma PushedNewest<T>(prefix: seq<T>, capacity: int, x: T)
    requires capacity >= 1
    ensures Pushed(Newest(prefix, capacity), capacity, x) == Some(Newest(prefix + [x], capacity))
  {
    var items := Newest(prefix, capacity);
    var next := Pushed(items, capacity, x).value;
    var s := prefix + [x];
    if |prefix| < capacity {
      assert next == s;
    } else {
      assert items == prefix[|prefix| - capacity..];
      assert next == items[1..] + [x];
      assert s[|s| - capacity..] == prefix[|prefix| - capacity + 1..] + [x];
    }
  }

  /** From empty, `n` adds leave the last `min(n, capacity)` items, in order. */
  lemma PushedAllFromEmpty<T>(capacity: int, xs: seq<T>)
    requires capacity >= 1
    ensures PushedAll([], capacity, xs) == Some(Newest(xs, capacity))
    ensures |PushedAll([], capacity, xs).value| == if |xs| < capacity then |xs| else capacity
  {
    PushedAllKeepsNewest([], capacity, xs);
    assert [] + xs == xs;
  }

  /** With no positive capacity the first `Add` on the empty buffer throws. */
  lemma PushedAllZeroCapacity<T>(capacity: int, xs: seq<T>)
    requires capacity <= 0 && xs != []
    ensures PushedAll([], capacity, xs).None?
  {
  }

  const RemoveAtOutOfRange := "Index was out of range. Must be non-negative and less than the size of the collection. (Parameter 'index')"

  /** `CircularBuffer<T>`: a list that drops its oldest element on overflow. */
  class CircularBuffer<T> {
    var items: seq<T>
    const capacity: int

    /** The list never grows past the capacity (and stays empty when the capacity is not positive). */
    predicate Valid()
      reads this
    {
      items == [] || |items| <= capacity
    }

    constructor(capacity: int)
      ensures Valid() && items == [] && this.capacity == capacity
    {
      this.capacity := capacity;
      items := [];
    }

    /** `Add`: at capacity, `RemoveAt(0)` first (which throws on an empty list), then append. */
    method Add(item: T) returns (r: Outcome<string>)
      requires Valid()
      modifies this
      ensures Valid()
      ensures r.Fail? <==> Pushed(old(items), capacity, item).None?
      ensures r.Fail? ==> r.error == RemoveAtOutOfRange && items == old(items)
      ensures r.Pass? ==> items == Pushed(old(items), capacity, item).value
    {
      if |items| >= capacity {
        if items == [] {
          return Fail(RemoveAtOutOfRange);
        }
        items := items[1..];
      }
      items := items + [item];
      r := Pass;
    }

    /** `Clear` */
    method Clear()
      modifies this
      ensures Valid() && items == []
    {
      items := [];
    }
  }

  // ---------------------------------------------------------------- the status line

  /** `OnConnectionStatusChanged`: a status replaces the message, except that "Disconnected" does not replace a non-empty one. */
  function NextStatusMessage(current: string, status: string): (r: string)
    ensures r == status || r == current
    ensures r == current <==> status == current || (status == "Disconnected" && current != "")
  {
    if status != "Disconnected" || current == "" then status else current
  }

  /** The message after a series of statuses. */
  function StatusAfter(current: string, statuses: seq<string>): string
    decreases |statuses|
  {
    if statuses == [] then current
    else StatusAfter(NextStatusMessage(current, statuses[0]), statuses[1..])
  }

  /** Whether some status other than "Disconnected" occurs. */
  predicate HasOtherStatus(statuses: seq<string>) {
    exists i :: 0 <= i < |statuses| && statuses[i] != "Disconnected"
  }

  /** The position of the last status other than "Disconnected". */
  function LastOther(statuses: seq<string>): (i: nat)
    requires HasOtherStatus(statuses)
    ensures i < |statuses| && statuses[i] != "Disconnected"
    ensures forall j :: i < j < |statuses| ==> statuses[j] == "Disconnected"
  {
    if statuses[|statuses| - 1] != "Disconnected" then |statuses| - 1
    else
      assert HasOtherStatus(statuses[..|statuses| - 1]) by {
        var i :| 0 <= i < |statuses| && statuses[i] != "Disconnected";
        assert statuses[..|statuses| - 1][i] == statuses[i];
      }
      LastOther(statuses[..|statuses| - 1])
  }

  /**
   * With non-empty statuses, the line shows the last status other than "Disconnected";
   * "Disconnected" is shown only if nothing else was ever shown.
   */
  lemma {:induction false} StatusAfterShowsLastOther(current: string, statuses: seq<string>)
    requires forall i :: 0 <= i < |statuses| ==> statuses[i] != ""
    ensures HasOtherStatus(statuses) ==> StatusAfter(current, statuses) == statuses[LastOther(statuses)]
    ensures !HasOtherStatus(statuses) ==>
      StatusAfter(current, statuses) == if current == "" && statuses != [] then "Disconnected" else current
    decreases |statuses|
  {
    if statuses != [] {
      var next := NextStatusMessage(current, statuses[0]);
      var rest := statuses[1..];
      StatusAfterShowsLastOther(next, rest);
      if HasOtherStatus(rest) {
        var k := LastOther(rest);
        assert statuses[k + 1] == rest[k];
        assert forall j :: k + 1 < j < |statuses| ==> statuses[j] == rest[j - 1];
        LastOtherUnique(statuses, k + 1);
      } else if HasOtherStatus(statuses) {
        forall j | 0 < j < |statuses| ensures statuses[j] == "Disconnected" {
          assert statuses[j] == rest[j - 1];
        }
        LastOtherUnique(statuses, 0);
      } else {
        assert statuses[0] == "Disconnected";
      }
    }
  }

  /** The last status other than "Disconnected" is the one after which only "Disconnected" follows. */
  lemma LastOtherUnique(statuses: seq<string>, k: nat)
    requires k < |statuses| && statuses[k] != "Disconnected"
    requires forall j :: k < j < |statuses| ==> statuses[j] == "Disconnected"
    ensures HasOtherStatus(statuses) && LastOther(statuses) == k
  {
    var i := LastOther(statuses);
    assert !(i < k) && !(k < i);
  }

  // ---------------------------------------------------------------- the commands

  const EnterUrlMessage := "Please enter a valid VLESS URL"
  const AddedMessage := "Configuration added successfully"
  const RemovedMessage := "Configuration removed successfully"
  const AddFailedPrefix := "Failed to add config: "
  const RemoveFailedPrefix := "Failed to remove config: "

  /** The position of the first listed config with id `id`, or -1. */
  function FirstWithId(configs: seq<VlessConfig>, id: string): (i: int)
    ensures -1 <= i < |configs|
    ensures i >= 0 ==> configs[i].id == id && forall j :: 0 <= j < i ==> configs[j].id != id
    ensures i == -1 <==> forall j :: 0 <= j < |configs| ==> configs[j].id != id
  {
    if configs == [] then -1
    else if configs[0].id == id then 0
    else
      var i := FirstWithId(configs[1..], id);
      if i == -1 then -1 else i + 1
  }

  class ViewModel {
    var statusMessage: string
    var newConfigUrl: string
    var isBusy: bool
    /** The `Configs` collection, one entry per listed config. */
    var configs: seq<VlessConfig>
    const store: JsonFileConfigStorage

    predicate Valid()
      reads this, store
    {
      store.Valid()
    }

    /**
     * The page over a store.  The constructor starts `LoadConfigsAsync`; the JSON store's
     * `GetAllConfigsAsync` completes at once, so the list is filled before it returns.
     */
    constructor(store: JsonFileConfigStorage)
      requires store.Valid()
      ensures Valid() && this.store == store
      ensures statusMessage == "" && newConfigUrl == "" && !isBusy
      ensures ListsValues(store.configs, configs)
    {
      this.store := store;
      statusMessage := "";
      newConfigUrl := "";
      isBusy := false;
      configs := [];
      new;
      LoadConfigs();
    }

    /**
     * `LoadConfigsAsync`: clear the list and fill it with every stored config, once each.
     * The JSON store's listing does not throw, so the "Failed to load configs" branch is
     * never taken.
     */
    method LoadConfigs()
      requires Valid()
      modifies this
      ensures Valid()
      ensures ListsValues(store.configs, configs) && !isBusy
      ensures statusMessage == old(statusMessage) && newConfigUrl == old(newConfigUrl)
    {
      isBusy := true;
      configs := [];
      var listed := store.GetAllConfigs();
      configs := listed;
      isBusy := false;
    }

    /** `OnConnectionStatusChanged`, run on the main thread. */
    method OnConnectionStatusChanged(status: string)
      modifies this
      ensures statusMessage == NextStatusMessage(old(statusMessage), status)
      ensures configs == old(configs) && newConfigUrl == old(newConfigUrl) && isBusy == old(isBusy)
    {
      if status != "Disconnected" || statusMessage == "" {
        statusMessage := status;
      }
    }

    /**
     * `AddConfig`: a blank URL only prompts; otherwise parse the URL and add the config,
     * reporting a failure of either step.
     */
    method AddConfig()
      requires Valid()
      modifies this, store
      ensures Valid()
      ensures IsNullOrWhiteSpace(Some(old(newConfigUrl))) ==>
        statusMessage == EnterUrlMessage && store.configs == old(store.configs) && configs == old(configs)
        && newConfigUrl == old(newConfigUrl) && store.file == old(store.file) && isBusy == old(isBusy)
      ensures !IsNullOrWhiteSpace(Some(old(newConfigUrl))) && Parse(old(newConfigUrl)).Failure? ==>
        statusMessage == AddFailedPrefix + ParseErrorMessage(Parse(old(newConfigUrl)).error)
        && store.configs == old(store.configs) && configs == old(configs) && store.file == old(store.file)
        && newConfigUrl == old(newConfigUrl)
      ensures !IsNullOrWhiteSpace(Some(old(newConfigUrl))) && Parse(old(newConfigUrl)).Success? ==>
        Added(Parse(old(newConfigUrl)).value, old(store.configs), old(store.file), old(configs), old(newConfigUrl))
      ensures !IsNullOrWhiteSpace(Some(old(newConfigUrl))) ==> !isBusy
    {
      if IsNullOrWhiteSpace(Some(newConfigUrl)) {
        statusMessage := EnterUrlMessage;
        return;
      }
      isBusy := true;
      var parsed := Parse(newConfigUrl);
      if parsed.Failure? {
        statusMessage := AddFailedPrefix + ParseErrorMessage(parsed.error);
      } else {
        AddParsed(parsed.value);
      }
      isBusy := false;
    }

    /**
     * What adding the parsed config `c` leaves: on success the store holds it, its file
     * reloads as the new dictionary, the list ends with it and the input is cleared; on
     * failure only the message changes.
     */
    ghost predicate Added(c: VlessConfig, oldStore: map<string, VlessConfig>, oldFile: StoredFile,
                          oldConfigs: seq<VlessConfig>, oldUrl: string)
      reads this, store
    {
      && (AddTo(oldStore, Some(c)).Success? ==>
            store.configs == AddTo(oldStore, Some(c)).value
            && JsonConfigStorage.LoadConfigs(store.file) == Success(store.configs)
            && configs == oldConfigs + [c] && newConfigUrl == "" && statusMessage == AddedMessage)
      && (AddTo(oldStore, Some(c)).Failure? ==>
            store.configs == oldStore && store.file == oldFile && configs == oldConfigs && newConfigUrl == oldUrl
            && statusMessage == AddFailedPrefix + StorageErrorMessage(AddTo(oldStore, Some(c)).error))
    }

    /** The store step of `AddConfig`, for a parsed config. */
    method AddParsed(c: VlessConfig)
      requires Valid()
      modifies this, store
      ensures Valid() && isBusy == old(isBusy)
      ensures Added(c, old(store.configs), old(store.file), old(configs), old(newConfigUrl))
    {
      var added := store.AddConfig(Some(c));
      if added.Fail? {
        statusMessage := AddFailedPrefix + StorageErrorMessage(added.error);
      } else {
        configs := configs + [c];
        newConfigUrl := "";
        statusMessage := AddedMessage;
      }
    }

    /**
     * `DeleteConfig`: a null or empty id does nothing; otherwise remove it from the
     * store and from the list, reporting a store failure.
     */
    method DeleteConfig(id: Option<string>)
      requires Valid()
      modifies this, store
      ensures Valid()
      ensures IsNullOrEmpty(id) ==>
        && statusMessage == old(statusMessage) && configs == old(configs) && isBusy == old(isBusy)
        && store.configs == old(store.configs) && store.file == old(store.file)
      ensures !IsNullOrEmpty(id) && RemoveFrom(old(store.configs), id.value).Failure? ==>
        statusMessage == RemoveFailedPrefix + StorageErrorMessage(RemoveFrom(old(store.configs), id.value).error)
        && store.configs == old(store.configs) && configs == old(configs) && store.file == old(store.file)
      ensures !IsNullOrEmpty(id) && RemoveFrom(old(store.configs), id.value).Success? ==>
        var i := FirstWithId(old(configs), id.value);
        && store.configs == RemoveFrom(old(store.configs), id.value).value
        && JsonConfigStorage.LoadConfigs(store.file) == Success(store.configs)
        && (i == -1 ==> configs == old(configs) && statusMessage == old(statusMessage))
        && (i >= 0 ==> configs == old(configs)[..i] + old(configs)[i + 1..] && statusMessage == RemovedMessage)
      ensures !IsNullOrEmpty(id) ==> !isBusy
      ensures newConfigUrl == old(newConfigUrl)
    {
      if IsNullOrEmpty(id) {
        return;
      }
      isBusy := true;
      var removed := store.RemoveConfig(id.value);
      if removed.Fail? {
        statusMessage := RemoveFailedPrefix + StorageErrorMessage(removed.error);
      } else {
        Unlist(id.value);
      }
      isBusy := false;
    }

    /** The list side of a successful delete: drop the first entry with the id, if any. */
    method Unlist(id: string)
      modifies this
      ensures var i := FirstWithId(old(configs), id);
        && (i == -1 ==> configs == old(configs) && statusMessage == old(statusMessage))
        && (i >= 0 ==> configs == old(configs)[..i] + old(configs)[i + 1..] && statusMessage == RemovedMessage)
      ensures isBusy == old(isBusy) && newConfigUrl == old(newConfigUrl)
    {
      var i := FirstWithId(configs, id);
      if i >= 0 {
        configs := configs[..i] + configs[i + 1..];
        statusMessage := RemovedMessage;
      }
    }
  }
}
