/**
 * GtefActionInfo and GtefActionInfoEntry, as far as the two stores use
 * them: an info is shared by reference between a store and the central
 * store, carries the action name it is filed under, and has a "used" flag
 * that menu-item creation sets.
 */
module ActionInfos {
  import opened Wrappers

  /** GtefActionInfoEntry: the static description of one action. */
  datatype ActionInfoEntry = ActionInfoEntry(
    actionName: Option<string>,
    iconName: Option<string>,
    labelText: Option<string>,
    accel: Option<string>,
    tooltip: Option<string>)

  class ActionInfo {
    const actionName: Option<string>
    const iconName: Option<string>
    const labelText: Option<string>
    const tooltip: Option<string>
    const accels: seq<string>
    var used: bool

    /** gtef_action_info_new_from_entry without translation: the entry's fields, its accelerator as the only one. */
    constructor FromEntry(e: ActionInfoEntry)
      ensures Describes(e) && !used
    {
      actionName := e.actionName;
      iconName := e.iconName;
      labelText := e.labelText;
      tooltip := e.tooltip;
      accels := if e.accel.Some? then [e.accel.value] else [];
      used := false;
    }

    /** The info was made from entry e. */
    predicate Describes(e: ActionInfoEntry)
    {
      && actionName == e.actionName && iconName == e.iconName && labelText == e.labelText && tooltip == e.tooltip
      && accels == (if e.accel.Some? then [e.accel.value] else [])
    }

    /** _gtef_action_info_set_used */
    method SetUsed()
      modifies this`used
      ensures used
    {
      used := true;
    }
  }

  /** Every info of a table is filed under its own action name. */
  ghost predicate KeysMatchNames(table: map<string, ActionInfo>)
  {
    forall n | n in table :: table[n].actionName == Some(n)
  }

  /** Add-only growth: every entry of `before` is still in `after`, with the same info. */
  ghost predicate Extends(before: map<string, ActionInfo>, after: map<string, ActionInfo>)
  {
    forall n | n in before :: n in after && after[n] == before[n]
  }

  /** The action names the entries carry. */
  function NamesOf(es: seq<ActionInfoEntry>): set<string>
  {
    if es == [] then {}
    else
      var last := es[|es| - 1];
      NamesOf(es[..|es| - 1]) + (if last.actionName.Some? then {last.actionName.value} else {})
  }

  /** The name of every named entry is among the names. */
  lemma {:induction false} NamesOfContains(es: seq<ActionInfoEntry>, i: nat)
    requires i < |es| && es[i].actionName.Some?
    ensures es[i].actionName.value in NamesOf(es)
  {
    if i < |es| - 1 {
      var front := es[..|es| - 1];
      assert front[i] == es[i];
      NamesOfContains(front, i);
    }
  }

  /** The position of the first entry named n; every name of the entries has one. */
  function FirstNamed(es: seq<ActionInfoEntry>, n: string): (k: nat)
    requires n in NamesOf(es)
    ensures k < |es| && es[k].actionName == Some(n)
    ensures forall j | 0 <= j < k :: es[j].actionName != Some(n)
  {
    var front := es[..|es| - 1];
    if n in NamesOf(front) then
      var k := FirstNamed(front, n);
      assert es[k] == front[k];
      k
    else
      assert forall j | 0 <= j < |front| :: es[j].actionName != Some(n) by {
        forall j | 0 <= j < |front|
          ensures es[j].actionName != Some(n)
        {
          if es[j].actionName == Some(n) {
            assert front[j] == es[j];
            NamesOfContains(front, j);
          }
        }
      }
      |es| - 1
  }

  /** Appending an entry keeps the first position of every name already present. */
  lemma {:induction false} FirstNamedAppend(es: seq<ActionInfoEntry>, e: ActionInfoEntry, n: string)
    requires n in NamesOf(es)
    ensures n in NamesOf(es + [e]) && FirstNamed(es + [e], n) == FirstNamed(es, n)
  {
    assert (es + [e])[..|es + [e]| - 1] == es;
  }

  /** One add: an info with a name not yet in the table is filed under it; anything else changes nothing. */
  function StoreAdd(table: map<string, ActionInfo>, info: ActionInfo): map<string, ActionInfo>
  {
    if info.actionName.Some? && info.actionName.value !in table then table[info.actionName.value := info] else table
  }

  /** The infos added one after the other, in order. */
  function AddAll(table: map<string, ActionInfo>, infos: seq<ActionInfo>): map<string, ActionInfo>
  {
    if infos == [] then table else StoreAdd(AddAll(table, infos[..|infos| - 1]), infos[|infos| - 1])
  }

  /** Adding infos named as the entries es keeps the table's entries and gains exactly the names of es. */
  lemma {:induction false} AddAllKeys(table: map<string, ActionInfo>, infos: seq<ActionInfo>, es: seq<ActionInfoEntry>)
    requires |infos| == |es| && forall j | 0 <= j < |es| :: infos[j].actionName == es[j].actionName
    ensures Extends(table, AddAll(table, infos))
    ensures AddAll(table, infos).Keys == table.Keys + NamesOf(es)
  {
    if infos != [] {
      AddAllKeys(table, infos[..|infos| - 1], es[..|es| - 1]);
    }
  }

  /** A name the table did not have gets the info made from its first entry. */
  lemma {:induction false} AddAllFirst(table: map<string, ActionInfo>, infos: seq<ActionInfo>, es: seq<ActionInfoEntry>)
    requires |infos| == |es| && forall j | 0 <= j < |es| :: infos[j].actionName == es[j].actionName
    ensures forall n | n in AddAll(table, infos) && n !in table ::
      n in NamesOf(es) && AddAll(table, infos)[n] == infos[FirstNamed(es, n)]
  {
    AddAllKeys(table, infos, es);
    if infos != [] {
      var front, efront := infos[..|infos| - 1], es[..|es| - 1];
      AddAllFirst(table, front, efront);
      AddAllKeys(table, front, efront);
      var before := AddAll(table, front);
      forall n | n in AddAll(table, infos) && n !in table
        ensures n in NamesOf(es) && AddAll(table, infos)[n] == infos[FirstNamed(es, n)]
      {
        if n in before {
          assert es == efront + [es[|es| - 1]];
          FirstNamedAppend(efront, es[|es| - 1], n);
        } else {
          assert n !in NamesOf(efront);
          assert FirstNamed(es, n) == |es| - 1;
        }
      }
    }
  }

  /** Each info was made from the entry at the same position. */
  ghost predicate AllMade(infos: seq<ActionInfo>, es: seq<ActionInfoEntry>)
  {
    |infos| == |es| &&
    (infos != [] ==> AllMade(infos[..|infos| - 1], es[..|es| - 1]) && infos[|infos| - 1].Describes(es[|es| - 1]))
  }

  lemma {:induction false} AllMadeDescribes(infos: seq<ActionInfo>, es: seq<ActionInfoEntry>)
    requires AllMade(infos, es)
    ensures forall j | 0 <= j < |es| :: infos[j].Describes(es[j])
  {
    if infos != [] {
      var front, efront := infos[..|infos| - 1], es[..|es| - 1];
      AllMadeDescribes(front, efront);
      assert forall j | 0 <= j < |efront| :: infos[j] == front[j] && es[j] == efront[j];
    }
  }

  /** Infos made from the entries es, added in order: the table grows by exactly their names, each new one with its first entry's info. */
  lemma AddAllMade(table: map<string, ActionInfo>, infos: seq<ActionInfo>, es: seq<ActionInfoEntry>)
    requires AllMade(infos, es)
    ensures Extends(table, AddAll(table, infos))
    ensures AddAll(table, infos).Keys == table.Keys + NamesOf(es)
    ensures forall n | n in AddAll(table, infos) && n !in table ::
      AddAll(table, infos)[n].Describes(es[FirstNamed(es, n)])
  {
    AllMadeDescribes(infos, es);
    AddAllKeys(table, infos, es);
    AddAllFirst(table, infos, es);
  }
}
