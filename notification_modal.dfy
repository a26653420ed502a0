/** The notification dialog of one agreement (src/components/NotificationModal.tsx). */
module NotificationModal {
  import opened Wrappers
  import opened ConvenioTypes
  import opened Notificaciones

  /** The configuration after a toggle whose call did not throw: the toggled
      switch becomes `!value`; the id is adopted from the insert's answer only
      when the configuration had none and the insert returned a row; nothing
      else changes. `inserted` is the store's answer (the new row's id). */
  function ToggledConfig(cfg: NotificacionConfig, flag: Flag, value: bool, inserted: Option<string>)
    : (u: NotificacionConfig)
    ensures GetFlag(u, flag) == !value
    ensures GetFlag(u, Other(flag)) == GetFlag(cfg, Other(flag))
    ensures u.convenioId == cfg.convenioId && u.creadoEn == cfg.creadoEn && u.actualizadoEn == cfg.actualizadoEn
    ensures cfg.id == "" && inserted.Some? ==> u.id == inserted.value
    ensures !(cfg.id == "" && inserted.Some?) ==> u.id == cfg.id
  {
    var updated := SetFlag(cfg, flag, !value);
    if cfg.id == "" && inserted.Some? then updated.(id := inserted.value) else updated
  }

  /** The dialog's state: the configuration it shows, null until loaded. */
  class NotificationModalState {
    const convenioId: string
    var config: Option<NotificacionConfig>

    constructor (convenioId: string)
      ensures this.convenioId == convenioId && config == None
    {
      this.convenioId := convenioId;
      config := None;
    }

    /** `fetchConfig`: the stored row when there is one, else a default with
        no id and both switches off; a call that threw changes nothing. */
    method FetchConfig(response: Response<NotificacionConfig>, nowIso: string)
      modifies this`config
      ensures response.Threw? ==> config == old(config)
      ensures response.Answered? && response.data.Some? ==> config == response.data
      ensures response.Answered? && response.data.None? ==> config == Some(DefaultConfig(convenioId, nowIso))
    {
      if response.Threw? {
        return;
      }
      if response.data.Some? {
        config := response.data;
      } else {
        config := Some(DefaultConfig(convenioId, nowIso));
      }
    }

    /** `handleToggle(type, value)`: nothing when no configuration is loaded.
        Otherwise it sends an update by id when the configuration has an id and
        an insert of a fresh row otherwise; `response` is the store's answer to
        that call (for the insert, the new row's id when it returned one). A
        call that threw leaves the configuration as it was. */
    method HandleToggle(flag: Flag, value: bool, response: Response<string>)
      returns (write: Option<ConfigWrite>)
      modifies this`config
      ensures old(config).None? ==> write.None? && config == old(config)
      ensures old(config).Some? && old(config).value.id != "" ==>
        write == Some(UpdateFlag(old(config).value.id, flag, !value))
      ensures old(config).Some? && old(config).value.id == "" ==>
        write == Some(InsertConfig(NewConfigPayload(convenioId, flag, !value)))
      ensures old(config).Some? && response.Threw? ==> config == old(config)
      ensures old(config).Some? && response.Answered? ==>
        config == Some(ToggledConfig(old(config).value, flag, value,
                                     if old(config).value.id == "" then response.data else None))
    {
      if config.None? {
        write := None;
        return;
      }
      var current := config.value;
      var newValue := !value;
      var updatedConfig := SetFlag(current, flag, newValue);

      if current.id != "" {
        write := Some(UpdateFlag(current.id, flag, newValue));
        if response.Threw? {
          return;
        }
      } else {
        write := Some(InsertConfig(NewConfigPayload(convenioId, flag, newValue)));
        if response.Threw? {
          return;
        }
        if response.data.Some? {
          updatedConfig := updatedConfig.(id := response.data.value);
        }
      }

      config := Some(updatedConfig);
    }
  }
}
