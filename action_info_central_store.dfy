/**
 * GtefActionInfoCentralStore (gtef-action-info-central-store.c): the
 * singleton that aggregates every info added to any store, so that action
 * names are unique across the whole program. It is add-only.
 */
module ActionInfoCentralStore {
  import opened Wrappers
  import opened ActionInfos

  class CentralStore {
    /** The hash table, keyed by action name (strings compared by contents). */
    var table: map<string, ActionInfo>

    ghost predicate Valid()
      reads this`table
    {
      KeysMatchNames(table)
    }

    /** gtef_action_info_central_store_init: an empty table. */
    constructor ()
      ensures Valid() && table == map[]
    {
      table := map[];
    }

    /**
     * _gtef_action_info_central_store_add: an info without an action name,
     * or whose name is already present, is refused with a warning and the
     * table is left as it is; otherwise it is filed under its name.
     */
    method Add(info: ActionInfo) returns (added: bool)
      requires Valid()
      modifies this`table
      ensures Valid() && Extends(old(table), table)
      ensures added <==> info.actionName.Some? && info.actionName.value !in old(table)
      ensures added ==> table == old(table)[info.actionName.value := info]
      ensures !added ==> table == old(table)
    {
      if info.actionName.None? {
        return false;
      }
      var name := info.actionName.value;
      if name in table {
        return false;
      }
      table := table[name := info];
      added := true;
    }

    /** gtef_action_info_central_store_lookup: the info filed under the name, or null. */
    function Lookup(name: string): (info: ActionInfo?)
      requires Valid()
      reads this`table
      ensures info == null <==> name !in table
      ensures info != null ==> info == table[name] && info.actionName == Some(name)
    {
      if name in table then table[name] else null
    }
  }

  /** The process-wide state: the static `instance` of gtef_action_info_central_store_get_instance. */
  class Globals {
    var instance: CentralStore?

    ghost predicate Valid()
      reads this, instance
    {
      instance != null ==> instance.Valid()
    }

    /** The central table, empty while no instance exists. */
    ghost function Contents(): map<string, ActionInfo>
      reads this, instance
    {
      if instance == null then map[] else instance.table
    }

    constructor ()
      ensures Valid() && instance == null
    {
      instance := null;
    }

    /**
     * gtef_action_info_central_store_get_instance: the first call creates the
     * instance, every call returns the same one.
     */
    method GetInstance() returns (store: CentralStore)
      requires Valid()
      modifies this`instance
      ensures Valid() && instance == store
      ensures old(instance) != null ==> store == old(instance)
      ensures old(instance) == null ==> fresh(store)
      ensures Contents() == old(Contents())
    {
      if instance == null {
        instance := new CentralStore();
      }
      store := instance;
    }
  }
}
