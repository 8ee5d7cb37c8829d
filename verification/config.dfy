/** `SystemManager.updateConfig`'s shallow merge `{ ...config, ...updates }`. */
module Config {
  import opened Wrappers
  import opened Records

  /** The update that names no field. */
  const NoConfigChange := ConfigUpdate(None, None, None, None)

  /** Every top-level field the update names replaces the current one whole. */
  function MergeConfig(config: SystemConfig, updates: ConfigUpdate): (r: SystemConfig)
    ensures updates == NoConfigChange ==> r == config
    ensures updates.environment.Some? ==> r.environment == updates.environment.value
    ensures updates.environment.None? ==> r.environment == config.environment
    ensures updates.features.Some? ==> r.features == updates.features.value
    ensures updates.features.None? ==> r.features == config.features
    ensures updates.limits.Some? ==> r.limits == updates.limits.value
    ensures updates.limits.None? ==> r.limits == config.limits
    ensures updates.security.Some? ==> r.security == updates.security.value
    ensures updates.security.None? ==> r.security == config.security
  {
    SystemConfig(
      updates.environment.GetOr(config.environment),
      updates.features.GetOr(config.features),
      updates.limits.GetOr(config.limits),
      updates.security.GetOr(config.security))
  }

  /** Two updates in a row: the later one wins field by field. */
  function Then(first: ConfigUpdate, second: ConfigUpdate): ConfigUpdate
  {
    ConfigUpdate(
      if second.environment.Some? then second.environment else first.environment,
      if second.features.Some? then second.features else first.features,
      if second.limits.Some? then second.limits else first.limits,
      if second.security.Some? then second.security else first.security)
  }

  /** Merging twice is merging the combined update once. */
  lemma MergeConfigThen(config: SystemConfig, first: ConfigUpdate, second: ConfigUpdate)
    ensures MergeConfig(MergeConfig(config, first), second) == MergeConfig(config, Then(first, second))
  {
  }

  /** Merging the same update again changes nothing. */
  lemma MergeConfigIdempotent(config: SystemConfig, updates: ConfigUpdate)
    ensures MergeConfig(MergeConfig(config, updates), updates) == MergeConfig(config, updates)
  {
  }

  /** Replacing the security section alone leaves every other section as it was. */
  lemma SecurityUpdate(config: SystemConfig, security: SecurityConfig)
    ensures MergeConfig(config, ConfigUpdate(None, None, None, Some(security))) == config.(security := security)
  {
  }

  /** The documented use: spreading the current security section with `mfaEnabled: true`
      switches multi-factor authentication on and changes nothing else. */
  lemma EnableMfa(config: SystemConfig)
    ensures var r := MergeConfig(config, ConfigUpdate(None, None, None, Some(config.security.(mfaEnabled := true))));
      && r.security.mfaEnabled
      && r.security.maxLoginAttempts == config.security.maxLoginAttempts
      && r.security.passwordPolicy == config.security.passwordPolicy
      && r.security.sessionTimeout == config.security.sessionTimeout
      && r.environment == config.environment && r.features == config.features && r.limits == config.limits
  {
  }
}
