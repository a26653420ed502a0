/** The per-agreement notification settings page (src/components/Notificaciones.tsx). */
module Notificaciones {
  import opened Wrappers
  import opened ConvenioTypes

  /** The two switches, `'push_notifications' | 'email_notifications'`. */
  datatype Flag = PushNotifications | EmailNotifications

  function Other(flag: Flag): Flag {
    match flag
    case PushNotifications => EmailNotifications
    case EmailNotifications => PushNotifications
  }

  function GetFlag(cfg: NotificacionConfig, flag: Flag): bool {
    match flag
    case PushNotifications => cfg.pushNotifications
    case EmailNotifications => cfg.emailNotifications
  }

  /** `{ ...cfg, [type]: value }`. */
  function SetFlag(cfg: NotificacionConfig, flag: Flag, value: bool): (r: NotificacionConfig)
    ensures GetFlag(r, flag) == value
    ensures GetFlag(r, Other(flag)) == GetFlag(cfg, Other(flag))
    ensures r.id == cfg.id && r.convenioId == cfg.convenioId
    ensures r.creadoEn == cfg.creadoEn && r.actualizadoEn == cfg.actualizadoEn
  {
    match flag
    case PushNotifications => cfg.(pushNotifications := value)
    case EmailNotifications => cfg.(emailNotifications := value)
  }

  /** The configuration assumed for an agreement without a stored one: no id,
      both switches off, both timestamps the current time `nowIso`. */
  function DefaultConfig(convenioId: string, nowIso: string): (r: NotificacionConfig)
    ensures r.id == "" && r.convenioId == convenioId
    ensures !GetFlag(r, PushNotifications) && !GetFlag(r, EmailNotifications)
  {
    NotificacionConfig("", convenioId, false, false, nowIso, nowIso)
  }

  /** The row the page inserts when an agreement has no configuration yet. */
  datatype InsertPayload = InsertPayload(convenioId: string, pushNotifications: bool, emailNotifications: bool)

  function PayloadFlag(p: InsertPayload, flag: Flag): bool {
    match flag
    case PushNotifications => p.pushNotifications
    case EmailNotifications => p.emailNotifications
  }

  /** `{ convenio_id, [type]: newValue, push_notifications: type === 'push_notifications' ? newValue : false, ... }`:
      the toggled switch takes the new value and the other one is off. */
  function NewConfigPayload(convenioId: string, flag: Flag, newValue: bool): (p: InsertPayload)
    ensures p.convenioId == convenioId
    ensures PayloadFlag(p, flag) == newValue
    ensures !PayloadFlag(p, Other(flag))
  {
    InsertPayload(
      convenioId,
      if flag == PushNotifications then newValue else false,
      if flag == EmailNotifications then newValue else false)
  }

  /** The write a toggle sends to the store. */
  datatype ConfigWrite =
    | UpdateFlag(configId: string, flag: Flag, value: bool)
    | InsertConfig(payload: InsertPayload)

  /** `configMap` after the `forEach` has seen every row of `rows`. */
  function ConfigMapOf(rows: seq<NotificacionConfig>): map<string, NotificacionConfig> {
    if rows == [] then map[]
    else ConfigMapOf(rows[..|rows| - 1])[rows[|rows| - 1].convenioId := rows[|rows| - 1]]
  }

  /** `rows[i]` is the last row for agreement `k`. */
  predicate LastFor(rows: seq<NotificacionConfig>, k: string, i: int)
    requires 0 <= i < |rows|
  {
    rows[i].convenioId == k && forall j :: i < j < |rows| ==> rows[j].convenioId != k
  }

  /** The map is keyed by `convenio_id`: it has a key for exactly the agreements
      that have a row, and when rows share an agreement the later row wins. */
  lemma ConfigMapLastWins(rows: seq<NotificacionConfig>, k: string)
    ensures k in ConfigMapOf(rows) <==> exists i :: 0 <= i < |rows| && rows[i].convenioId == k
    ensures k in ConfigMapOf(rows) ==>
      exists i :: 0 <= i < |rows| && LastFor(rows, k, i) && ConfigMapOf(rows)[k] == rows[i]
  {
    ConfigMapKeys(rows, k);
    if k in ConfigMapOf(rows) {
      var i := ConfigMapLast(rows, k);
    }
  }

  /** A key for exactly the agreements that have a row. */
  lemma {:induction false} ConfigMapKeys(rows: seq<NotificacionConfig>, k: string)
    ensures k in ConfigMapOf(rows) <==> exists i :: 0 <= i < |rows| && rows[i].convenioId == k
  {
    if rows != [] {
      var n := |rows| - 1;
      var init := rows[..n];
      ConfigMapKeys(init, k);
      assert ConfigMapOf(rows) == ConfigMapOf(init)[rows[n].convenioId := rows[n]];
      if rows[n].convenioId != k && k !in ConfigMapOf(init) {
        forall i | 0 <= i < |rows| ensures rows[i].convenioId != k {
          if i < n { assert init[i] == rows[i]; }
        }
      } else if rows[n].convenioId != k {
        var i :| 0 <= i < |init| && init[i].convenioId == k;
        assert rows[i] == init[i];
      }
    }
  }

  /** The value at a key is the last row for that agreement. */
  lemma {:induction false} ConfigMapLast(rows: seq<NotificacionConfig>, k: string) returns (i: int)
    requires k in ConfigMapOf(rows)
    ensures 0 <= i < |rows| && LastFor(rows, k, i) && ConfigMapOf(rows)[k] == rows[i]
  {
    var n := |rows| - 1;
    var init := rows[..n];
    assert ConfigMapOf(rows) == ConfigMapOf(init)[rows[n].convenioId := rows[n]];
    if rows[n].convenioId == k {
      i := n;
    } else {
      i := ConfigMapLast(init, k);
      assert rows[i] == init[i];
      forall j | i < j < |rows| ensures rows[j].convenioId != k {
        if j < n { assert rows[j] == init[j]; }
      }
    }
  }

  /** The `forEach` that fills `configMap`, one row at a time. */
  method BuildConfigMap(rows: seq<NotificacionConfig>) returns (configMap: map<string, NotificacionConfig>)
    ensures configMap == ConfigMapOf(rows)
  {
    configMap := map[];
    var i := 0;
    while i < |rows|
      invariant 0 <= i <= |rows|
      invariant configMap == ConfigMapOf(rows[..i])
    {
      assert rows[..i + 1][..i] == rows[..i];
      configMap := configMap[rows[i].convenioId := rows[i]];
      i := i + 1;
    }
    assert rows[..|rows|] == rows;
  }

  /** `fetchConfigs`: no agreements gives an empty map without a query
      (`queried` is false); a call that threw leaves the map as it was;
      otherwise the returned rows (none for a null payload) are keyed by
      agreement. `response` is what the query would answer. */
  method FetchConfigs(prev: map<string, NotificacionConfig>, convenios: seq<Convenio>,
                      response: Response<seq<NotificacionConfig>>)
    returns (queried: bool, configs: map<string, NotificacionConfig>)
    ensures queried <==> |convenios| > 0
    ensures |convenios| == 0 ==> configs == map[]
    ensures |convenios| > 0 && response.Threw? ==> configs == prev
    ensures |convenios| > 0 && response.Answered? ==> configs == ConfigMapOf(response.data.GetOr([]))
  {
    if |convenios| == 0 {
      queried := false;
      configs := map[];
      return;
    }
    queried := true;
    if response.Threw? {
      configs := prev;
      return;
    }
    configs := BuildConfigMap(response.data.GetOr([]));
  }

  /** The local merge `{ ...prev, [convenioId]: { ...(prev[convenioId] || default), [type]: newValue } }`. */
  function MergeToggle(prev: map<string, NotificacionConfig>, convenioId: string, flag: Flag, newValue: bool, nowIso: string)
    : (r: map<string, NotificacionConfig>)
    ensures r.Keys == prev.Keys + {convenioId}
    ensures GetFlag(r[convenioId], flag) == newValue
    ensures GetFlag(r[convenioId], Other(flag)) == (convenioId in prev && GetFlag(prev[convenioId], Other(flag)))
    ensures r[convenioId].id == if convenioId in prev then prev[convenioId].id else ""
    ensures forall k :: k in prev && k != convenioId ==> r[k] == prev[k]
  {
    var base := if convenioId in prev then prev[convenioId] else DefaultConfig(convenioId, nowIso);
    prev[convenioId := SetFlag(base, flag, newValue)]
  }

  /** What one `handleToggle` does: the write it sends, and the map afterwards. */
  datatype ToggleEffect = ToggleEffect(write: ConfigWrite, configs: map<string, NotificacionConfig>)

  /** `handleToggle(convenioId, type, value)`: an update of the stored row by
      its id when the agreement has a configuration, an insert otherwise. The
      store's answer is not inspected, so the merge happens unless the awaited
      call threw. */
  function HandleToggle(configs: map<string, NotificacionConfig>, convenioId: string, flag: Flag, value: bool,
                        nowIso: string, threw: bool): (e: ToggleEffect)
    ensures e.write.UpdateFlag? <==> convenioId in configs
    ensures e.write.UpdateFlag? ==>
      e.write.configId == configs[convenioId].id && e.write.flag == flag && e.write.value == !value
    ensures e.write.InsertConfig? ==> e.write.payload == NewConfigPayload(convenioId, flag, !value)
    ensures threw ==> e.configs == configs
    ensures !threw ==> e.configs == MergeToggle(configs, convenioId, flag, !value, nowIso)
  {
    var config := if convenioId in configs then Some(configs[convenioId]) else None;
    var newValue := !value;
    var write := if config.Some? then UpdateFlag(config.value.id, flag, newValue)
                 else InsertConfig(NewConfigPayload(convenioId, flag, newValue));
    if threw then ToggleEffect(write, configs)
    else ToggleEffect(write, MergeToggle(configs, convenioId, flag, newValue, nowIso))
  }

  /** As written, a first toggle of an agreement without a configuration
      inserts a row but keeps the id '' in the merged map, so the next toggle
      of that agreement sends an update for id '', which matches no row. */
  lemma SecondToggleUpdatesEmptyId(configs: map<string, NotificacionConfig>, convenioId: string,
                                   first: Flag, v1: bool, second: Flag, v2: bool, nowIso: string, later: string)
    requires convenioId !in configs
    ensures
      var once := HandleToggle(configs, convenioId, first, v1, nowIso, false);
      && once.write.InsertConfig?
      && HandleToggle(once.configs, convenioId, second, v2, later, false).write == UpdateFlag("", second, !v2)
  {
  }

  /** The toggle with the insert returning its row, as the dialog's insert
      does: `answer` is the awaited call's result, whose data is the new row's
      id on the insert path. The merged configuration adopts that id. */
  function HandleToggleAdopting(configs: map<string, NotificacionConfig>, convenioId: string, flag: Flag, value: bool,
                                nowIso: string, answer: Response<string>): (e: ToggleEffect)
    ensures e.write == HandleToggle(configs, convenioId, flag, value, nowIso, answer.Threw?).write
    ensures answer.Threw? ==> e.configs == configs
    ensures !answer.Threw? ==>
      && e.configs.Keys == configs.Keys + {convenioId}
      && GetFlag(e.configs[convenioId], flag) == !value
      && GetFlag(e.configs[convenioId], Other(flag)) == (convenioId in configs && GetFlag(configs[convenioId], Other(flag)))
      && e.configs[convenioId].id == (if convenioId in configs then configs[convenioId].id else answer.data.GetOr(""))
      && forall k :: k in configs && k != convenioId ==> e.configs[k] == configs[k]
  {
    var e := HandleToggle(configs, convenioId, flag, value, nowIso, answer.Threw?);
    if !answer.Threw? && convenioId !in configs && answer.data.Some? then
      ToggleEffect(e.write, e.configs[convenioId := e.configs[convenioId].(id := answer.data.value)])
    else e
  }

  /** With the id adopted, the second toggle updates the row the first one
      inserted. */
  lemma AdoptedIdTargetsInsertedRow(configs: map<string, NotificacionConfig>, convenioId: string, insertedId: string,
                                    first: Flag, v1: bool, second: Flag, v2: bool, nowIso: string, later: string,
                                    answer: Response<string>)
    requires convenioId !in configs
    ensures
      var once := HandleToggleAdopting(configs, convenioId, first, v1, nowIso, Answered(Some(insertedId)));
      && once.write.InsertConfig?
      && HandleToggleAdopting(once.configs, convenioId, second, v2, later, answer).write == UpdateFlag(insertedId, second, !v2)
  {
  }

  /** The configuration a row of the page shows: the stored one, or one with
      both switches off. */
  function DisplayedConfig(configs: map<string, NotificacionConfig>, convenioId: string, nowIso: string): (c: NotificacionConfig)
    ensures convenioId !in configs ==> !c.pushNotifications && !c.emailNotifications
    ensures convenioId in configs ==> c == configs[convenioId]
  {
    if convenioId in configs then configs[convenioId] else DefaultConfig(convenioId, nowIso)
  }

  /** Clicking a checkbox, which passes the value it shows, flips exactly that
      switch of that agreement on the page; its other switch still shows what
      it showed, and every other agreement is unchanged. */
  lemma ToggleFlipsShownSwitch(configs: map<string, NotificacionConfig>, convenioId: string, flag: Flag,
                               nowIso: string, later: string)
    ensures
      var shown := DisplayedConfig(configs, convenioId, nowIso);
      var after := HandleToggle(configs, convenioId, flag, GetFlag(shown, flag), nowIso, false).configs;
      && GetFlag(DisplayedConfig(after, convenioId, later), flag) == !GetFlag(shown, flag)
      && GetFlag(DisplayedConfig(after, convenioId, later), Other(flag)) == GetFlag(shown, Other(flag))
      && forall k :: k != convenioId ==> DisplayedConfig(after, k, later) == DisplayedConfig(configs, k, later)
  {
    var shown := DisplayedConfig(configs, convenioId, nowIso);
    var after := HandleToggle(configs, convenioId, flag, GetFlag(shown, flag), nowIso, false).configs;
    if convenioId !in configs {
      assert GetFlag(shown, Other(flag)) == false by {
        match Other(flag) {
          case PushNotifications =>
          case EmailNotifications =>
        }
      }
    }
  }
}
