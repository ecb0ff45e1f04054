/**
 * GtefActionInfoStore (gtef-action-info-store.c): an add-only table of
 * action infos keyed by action name. Every info it accepts is also handed
 * to the central store; creating a menu item marks the info used, and the
 * store can report the infos never used.
 */
module ActionInfoStore {
  import opened Wrappers
  import opened ActionInfos
  import opened ActionInfoCentralStore

  /** A GtkApplication; only its identity matters here. */
  class Application {
  }

  /** What create_menu_item sets on the menu item it builds, taken from the info. */
  datatype MenuItem = MenuItem(
    actionName: string,
    labelText: Option<string>,
    iconName: Option<string>,
    tooltip: Option<string>,
    accel: Option<string>)

  /** The menu item for the info filed under `name`: its label, icon, tooltip and first accelerator. */
  function MenuItemFor(name: string, info: ActionInfo): MenuItem
  {
    MenuItem(name, info.labelText, info.iconName, info.tooltip, if |info.accels| > 0 then Some(info.accels[0]) else None)
  }

  /** The position of the first entry without an action name: the terminator of a NULL-terminated array. */
  function FirstUnnamed(es: seq<ActionInfoEntry>): (k: nat)
    requires exists i | 0 <= i < |es| :: es[i].actionName.None?
    ensures k < |es| && es[k].actionName.None?
    ensures forall j | 0 <= j < k :: es[j].actionName.Some?
  {
    if es[0].actionName.None? then 0
    else
      assert exists i | 0 <= i < |es[1..]| :: es[1..][i].actionName.None? by {
        var i :| 0 <= i < |es| && es[i].actionName.None?;
        assert es[1..][i - 1] == es[i];
      }
      1 + FirstUnnamed(es[1..])
  }

  /** The calls add_entries accepts: n_entries >= -1, and an array unless n_entries is 0. */
  predicate EntriesAccepted(entries: Option<seq<ActionInfoEntry>>, nEntries: int)
  {
    nEntries >= -1 && (entries.Some? || nEntries == 0)
  }

  /** What the caller of add_entries guarantees: n_entries entries, or a terminator when it is -1. */
  predicate EntriesWellFormed(entries: Option<seq<ActionInfoEntry>>, nEntries: int)
  {
    entries.Some? ==>
      && (nEntries >= 0 ==> nEntries <= |entries.value|)
      && (nEntries == -1 ==> exists i | 0 <= i < |entries.value| :: entries.value[i].actionName.None?)
  }

  /** The entries add_entries walks: the first n_entries, or those before the first one without a name. */
  function Taken(entries: Option<seq<ActionInfoEntry>>, nEntries: int): (es: seq<ActionInfoEntry>)
    requires EntriesAccepted(entries, nEntries) && EntriesWellFormed(entries, nEntries)
    ensures nEntries >= 0 ==> |es| == nEntries
    ensures nEntries == -1 ==> forall i | 0 <= i < |es| :: es[i].actionName.Some?
  {
    if entries.None? then []
    else if nEntries >= 0 then entries.value[..nEntries]
    else entries.value[..FirstUnnamed(entries.value)]
  }

  /** The loop guard of add_entries holds exactly while entries of Taken remain, and the entry it reads is Taken's. */
  lemma TakenGuard(entries: Option<seq<ActionInfoEntry>>, nEntries: int, i: nat)
    requires EntriesAccepted(entries, nEntries) && EntriesWellFormed(entries, nEntries)
    requires i <= |Taken(entries, nEntries)|
    ensures nEntries >= 0 ==> |Taken(entries, nEntries)| == nEntries
    ensures nEntries == -1 ==> i < |entries.value| && (entries.value[i].actionName.Some? <==> i < |Taken(entries, nEntries)|)
    ensures i < |Taken(entries, nEntries)| ==> entries.Some? && i < |entries.value| && entries.value[i] == Taken(entries, nEntries)[i]
  {
  }

  class Store {
    /** The weak reference to the application; null when there is none. */
    var app: Application?
    /** The hash table, keyed by action name. */
    var table: map<string, ActionInfo>

    ghost predicate Valid()
      reads this`table
    {
      KeysMatchNames(table)
    }

    /** Every name of the store is also a name of the central store. */
    ghost predicate Registered(g: Globals)
      reads this`table, g, g.instance
    {
      table.Keys <= g.Contents().Keys
    }

    /** gtef_action_info_store_new: an empty table, and the application when one is given. */
    constructor (application: Application?)
      ensures Valid() && table == map[] && app == application
    {
      table := map[];
      app := null;
      new;
      var _ := SetApplication(application);
    }

    /**
     * set_application: the property is construct-only, so there is no
     * application yet; NULL leaves it unset, anything else is stored and
     * notified.
     */
    method SetApplication(application: Application?) returns (notified: bool)
      requires app == null
      modifies this`app
      ensures app == application
      ensures notified <==> application != null
    {
      if application == null {
        return false;
      }
      app := application;
      notified := true;
    }

    /**
     * gtef_action_info_store_add: an info without an action name, or whose
     * name is already in the store, is refused with a warning and neither
     * store changes; otherwise it is filed under its name and handed to the
     * central store.
     */
    method Add(info: ActionInfo, g: Globals) returns (added: bool)
      requires Valid() && g.Valid() && Registered(g)
      modifies this`table, g`instance, g.instance
      ensures Valid() && g.Valid() && Registered(g)
      ensures Extends(old(table), table) && Extends(old(g.Contents()), g.Contents())
      ensures added <==> info.actionName.Some? && info.actionName.value !in old(table)
      ensures added ==> table == old(table)[info.actionName.value := info]
      ensures added ==> g.instance != null && g.Contents() == (if info.actionName.value in old(g.Contents()) then old(g.Contents())
                            else old(g.Contents())[info.actionName.value := info])
      ensures !added ==> table == old(table) && g.instance == old(g.instance) && g.Contents() == old(g.Contents())
      ensures old(g.instance) != null ==> g.instance == old(g.instance)
      ensures g.instance != old(g.instance) ==> fresh(g.instance)
    {
      if info.actionName.None? {
        return false;
      }
      var name := info.actionName.value;
      if name in table {
        return false;
      }
      table := table[name := info];
      var central := g.GetInstance();
      var _ := central.Add(info);
      added := true;
    }

    /** One step of add_entries: an info made from the entry, then added. */
    method AddEntry(e: ActionInfoEntry, g: Globals) returns (ghost info: ActionInfo)
      requires Valid() && g.Valid() && Registered(g)
      modifies this`table, g`instance, g.instance
      ensures Valid() && g.Valid() && Registered(g)
      ensures info.Describes(e) && table == StoreAdd(old(table), info)
      ensures g.Contents() == StoreAdd(old(g.Contents()), info)
      ensures old(g.instance) != null ==> g.instance == old(g.instance)
      ensures g.instance != old(g.instance) ==> fresh(g.instance)
    {
      var made := new ActionInfo.FromEntry(e);
      var _ := Add(made, g);
      info := made;
    }

    /**
     * gtef_action_info_store_add_entries without translation: a negative
     * count other than -1, or a missing array with a non-zero count, is
     * refused; otherwise an info made from each entry walked is added in
     * order, so a name gets the info of its first entry.
     */
    method AddEntries(entries: Option<seq<ActionInfoEntry>>, nEntries: int, g: Globals) returns (accepted: bool)
      requires Valid() && g.Valid() && Registered(g)
      requires EntriesWellFormed(entries, nEntries)
      modifies this`table, g`instance, g.instance
      ensures Valid() && g.Valid() && Registered(g)
      ensures Extends(old(table), table) && Extends(old(g.Contents()), g.Contents())
      ensures accepted <==> EntriesAccepted(entries, nEntries)
      ensures !accepted ==> table == old(table) && g.instance == old(g.instance) && g.Contents() == old(g.Contents())
      ensures accepted ==>
        var es := Taken(entries, nEntries);
        && table.Keys == old(table).Keys + NamesOf(es)
        && (forall n | n in table && n !in old(table) ::
              table[n].Describes(es[FirstNamed(es, n)]))
        && g.Contents().Keys == old(g.Contents()).Keys + NamesOf(es)
        && (forall n | n in g.Contents() && n !in old(g.Contents()) ::
              g.Contents()[n].Describes(es[FirstNamed(es, n)]))
    {
      if !EntriesAccepted(entries, nEntries) {
        return false;
      }
      accepted := true;
      ghost var table0, central0 := table, g.Contents();
      ghost var infos := AddTaken(entries, nEntries, g);
      AddAllMade(table0, infos, Taken(entries, nEntries));
      AddAllMade(central0, infos, Taken(entries, nEntries));
    }

    /**
     * The state of add_entries after walking i entries: infos made from
     * the first i entries have been added in order, the loop guard holds
     * exactly while entries remain, and the same infos have been offered
     * to the central store in the same order.
     */
    ghost predicate Walked(entries: Option<seq<ActionInfoEntry>>, nEntries: int, g: Globals,
                           table0: map<string, ActionInfo>, central0: map<string, ActionInfo>, infos: seq<ActionInfo>, i: nat)
      requires EntriesAccepted(entries, nEntries) && EntriesWellFormed(entries, nEntries)
      reads this`table, g, g.instance
    {
      var es := Taken(entries, nEntries);
      && Valid() && g.Valid() && Registered(g)
      && i <= |es| && |infos| == i
      && (nEntries == -1 ==> i < |entries.value| && (entries.value[i].actionName.Some? <==> i < |es|))
      && (nEntries >= 0 ==> |es| == nEntries)
      && table == AddAll(table0, infos) && AllMade(infos, es[..i])
      && g.Contents() == AddAll(central0, infos)
    }

    /** One pass of the loop of add_entries: an info made from entry i, then added. */
    method AddEntryAt(entries: Option<seq<ActionInfoEntry>>, nEntries: int, g: Globals,
                      ghost table0: map<string, ActionInfo>, ghost central0: map<string, ActionInfo>,
                      ghost infos: seq<ActionInfo>, i: nat) returns (ghost grown: seq<ActionInfo>)
      requires EntriesAccepted(entries, nEntries) && EntriesWellFormed(entries, nEntries)
      requires Walked(entries, nEntries, g, table0, central0, infos, i) && i < |Taken(entries, nEntries)|
      modifies this`table, g`instance, g.instance
      ensures Walked(entries, nEntries, g, table0, central0, grown, i + 1)
      ensures old(g.instance) != null ==> g.instance == old(g.instance)
      ensures g.instance != old(g.instance) ==> fresh(g.instance)
    {
      ghost var es := Taken(entries, nEntries);
      TakenGuard(entries, nEntries, i);
      ghost var info := AddEntry(entries.value[i], g);
      grown := infos + [info];
      assert grown[..i] == infos && es[..i + 1][..i] == es[..i];
      TakenGuard(entries, nEntries, i + 1);
    }

    /** The loop of add_entries: an info is made from each entry walked and added, in order. */
    method AddTaken(entries: Option<seq<ActionInfoEntry>>, nEntries: int, g: Globals) returns (ghost infos: seq<ActionInfo>)
      requires Valid() && g.Valid() && Registered(g)
      requires EntriesAccepted(entries, nEntries) && EntriesWellFormed(entries, nEntries)
      modifies this`table, g`instance, g.instance
      ensures Valid() && g.Valid() && Registered(g)
      ensures AllMade(infos, Taken(entries, nEntries)) && table == AddAll(old(table), infos)
      ensures g.Contents() == AddAll(old(g.Contents()), infos)
      ensures old(g.instance) != null ==> g.instance == old(g.instance)
      ensures g.instance != old(g.instance) ==> fresh(g.instance)
    {
      ghost var table0, central0 := table, g.Contents();
      infos := [];
      var i := 0;
      TakenGuard(entries, nEntries, i);
      while if nEntries == -1 then entries.value[i].actionName.Some? else i < nEntries
        invariant Walked(entries, nEntries, g, table0, central0, infos, i)
        invariant old(g.instance) != null ==> g.instance == old(g.instance)
        invariant g.instance != old(g.instance) ==> fresh(g.instance)
        decreases |Taken(entries, nEntries)| - i
      {
        infos := AddEntryAt(entries, nEntries, g, table0, central0, infos, i);
        i := i + 1;
      }
      ghost var es := Taken(entries, nEntries);
      assert es[..i] == es;
    }

    /** gtef_action_info_store_lookup: the info filed under the name, or null. */
    function Lookup(name: string): (info: ActionInfo?)
      requires Valid()
      reads this`table
      ensures info == null <==> name !in table
      ensures info != null ==> info == table[name] && info.actionName == Some(name)
    {
      if name in table then table[name] else null
    }

    /**
     * The lookup and used-flag parts of gtef_action_info_store_create_menu_item:
     * an unknown name gives no menu item and marks nothing; a known one gives
     * the item built from its info and marks that info used. `boundToApp`
     * says whether the accelerators are also set on the application.
     */
    method CreateMenuItem(name: string) returns (item: Option<MenuItem>, boundToApp: bool)
      requires Valid()
      modifies if name in table then {table[name]} else {}
      ensures item.None? <==> name !in table
      ensures name in table ==> table[name].used && item == Some(MenuItemFor(name, table[name]))
      ensures boundToApp <==> name in table && app != null
    {
      if name !in table {
        return None, false;
      }
      var info := table[name];
      item := Some(MenuItemFor(name, info));
      boundToApp := app != null;
      info.SetUsed();
    }

    /** gtef_action_info_store_check_all_used: the names warned about are exactly those of the unused infos. */
    method CheckAllUsed() returns (unused: set<string>)
      ensures unused == set n | n in table && !table[n].used
    {
      unused := {};
      var remaining := table.Keys;
      while remaining != {}
        invariant remaining <= table.Keys
        invariant unused == set n | n in table && n !in remaining && !table[n].used
        decreases remaining
      {
        var n :| n in remaining;
        if !table[n].used {
          unused := unused + {n};
        }
        remaining := remaining - {n};
      }
    }
  }
}
