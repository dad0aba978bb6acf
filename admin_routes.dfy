/** The admin routes that change the access gate. */
module AdminRoutes {
  import opened Wrappers
  import opened Models

  /** The stored value of `app_active` as the toggle reads it. A row the
      route has just created but not yet inserted reads as None, because
      the column default is applied only on insert. */
  type StoredFlag = Option<bool>

  /** The flag the gate goes by: a new row gets the default, active. */
  function EffectiveActive(stored: StoredFlag): bool {
    stored.GetOr(true)
  }

  /** `admin_toggle_access` as written: `not app_active`, where a missing
      value is falsy. */
  function ToggleAsWritten(stored: StoredFlag): bool {
    !(stored == Some(true))
  }

  /** Toggling when no configuration row exists leaves the app active: the
      new row's flag reads as None, so the toggle stores true, which is
      what the default already was. */
  lemma ToggleAsWrittenKeepsNewConfigOpen()
    ensures EffectiveActive(None)
    ensures ToggleAsWritten(None) == EffectiveActive(None)
  {
  }

  /** The toggle the route intends: the opposite of the flag in effect. */
  function Toggle(stored: StoredFlag): (active: bool)
    ensures active != EffectiveActive(stored)
    ensures stored.Some? ==> active == ToggleAsWritten(stored)
  {
    !EffectiveActive(stored)
  }

  /** The toggle route: flips the flag of the existing configuration, or
      creates a default configuration and switches it off. Replies with the
      new flag and the gate's verdict at `now`. */
  method ToggleAccess(config: AppConfig?, now: int)
    returns (record: AppConfig, active: bool, accessible: bool)
    modifies config
    ensures config != null ==> record == config
    ensures config == null ==> fresh(record) && record.accessStart == None && record.accessEnd == None
                               && record.maintenanceMessage == DEFAULT_MAINTENANCE_MESSAGE
    ensures active == record.appActive
    ensures active == !(config == null || old(config.appActive))
    ensures config != null ==> record.accessStart == old(config.accessStart)
                               && record.accessEnd == old(config.accessEnd)
                               && record.maintenanceMessage == old(config.maintenanceMessage)
    ensures accessible == record.IsAccessible(now)
    ensures !active ==> !accessible
  {
    var stored: StoredFlag := if config == null then None else Some(config.appActive);
    if config == null {
      record := new AppConfig();
    } else {
      record := config;
    }
    record.appActive := Toggle(stored);
    active := record.appActive;
    accessible := record.IsAccessible(now);
  }

  /** `admin_update_access`: stores the posted flag (default true) and
      message (default 'App is temporarily unavailable') and the window
      bounds; a bound that is absent or does not parse is stored as None,
      which `start`/`end` already reflect. */
  method UpdateAccess(config: AppConfig?, appActive: Option<bool>, message: Option<string>,
                      start: Option<int>, end: Option<int>, now: int)
    returns (record: AppConfig, accessible: bool)
    modifies config
    ensures config != null ==> record == config
    ensures config == null ==> fresh(record)
    ensures record.appActive == appActive.GetOr(true)
    ensures record.maintenanceMessage == message.GetOr(UPDATE_DEFAULT_MESSAGE)
    ensures record.accessStart == start && record.accessEnd == end
    ensures accessible == record.IsAccessible(now)
    ensures accessible <==> (appActive.GetOr(true)
                             && (start.Some? ==> start.value <= now)
                             && (end.Some? ==> now <= end.value))
  {
    if config == null {
      record := new AppConfig();
    } else {
      record := config;
    }
    record.appActive := appActive.GetOr(true);
    record.maintenanceMessage := message.GetOr(UPDATE_DEFAULT_MESSAGE);
    record.accessStart := start;
    record.accessEnd := end;
    accessible := record.IsAccessible(now);
  }

  /** The message `admin_update_access` stores when none is posted; it
      differs from the column default. */
  const UPDATE_DEFAULT_MESSAGE := "App is temporarily unavailable"
}
