/** Configuration validation (`Validate` in common/lifelog-types/src/lib.rs and
    common/lifelog-types/src/validate.rs). Every validator is a chain of checks; the first
    that fails is reported as a validation error naming its field. */
module Validate {
  import opened Wrappers
  import opened Errors
  import opened Decimal

  datatype ServerConfig = ServerConfig(host: string, port: nat, databaseEndpoint: string,
                                       databaseName: string, serverName: string)
  datatype ScreenConfig = ScreenConfig(enabled: bool, interval: real)
  datatype MicrophoneConfig = MicrophoneConfig(enabled: bool, sampleRate: nat)
  datatype CollectorConfig = CollectorConfig(id: string, host: string, port: nat,
                                             screen: Option<ScreenConfig>,
                                             microphone: Option<MicrophoneConfig>)

  /** `SystemConfig`; the collectors map is given in its iteration order. */
  datatype SystemConfig = SystemConfig(server: Option<ServerConfig>, collectors: seq<(string, CollectorConfig)>)

  // ------------------------------------------------------------- check chains

  /** One check of a chain: whether it passes, and the error it reports if not. */
  datatype Check = Check(ok: bool, field: string, reason: string)

  /** The result of a chain: the first failing check's error, or success. */
  function FirstFailure(checks: seq<Check>): Result<(), LifelogError>
    decreases |checks|
  {
    if checks == [] then Ok(())
    else if !checks[0].ok then Err(Validation(checks[0].field, checks[0].reason))
    else FirstFailure(checks[1..])
  }

  /** A chain succeeds iff every check passes; otherwise it reports the check that fails
      first. */
  lemma {:induction false} FirstFailureSpec(checks: seq<Check>)
    ensures FirstFailure(checks).Ok? <==> forall i :: 0 <= i < |checks| ==> checks[i].ok
    ensures FirstFailure(checks).Err? ==>
              exists i :: 0 <= i < |checks| && !checks[i].ok && (forall j :: 0 <= j < i ==> checks[j].ok) &&
                          FirstFailure(checks) == Err(Validation(checks[i].field, checks[i].reason))
    decreases |checks|
  {
    if checks != [] && checks[0].ok {
      FirstFailureSpec(checks[1..]);
      assert forall i :: 1 <= i < |checks| ==> checks[i] == checks[1..][i - 1];
      if FirstFailure(checks[1..]).Err? {
        var i :| 0 <= i < |checks[1..]| && !checks[1..][i].ok && (forall j :: 0 <= j < i ==> checks[1..][j].ok) &&
                 FirstFailure(checks[1..]) == Err(Validation(checks[1..][i].field, checks[1..][i].reason));
        assert !checks[i + 1].ok && forall j :: 0 <= j < i + 1 ==> checks[j].ok;
      }
    }
  }

  lemma UnfoldOne(checks: seq<Check>)
    requires checks != []
    ensures FirstFailure(checks) ==
            if !checks[0].ok then Err(Validation(checks[0].field, checks[0].reason)) else FirstFailure(checks[1..])
  {
  }

  lemma UnfoldThree(cs: seq<Check>)
    requires |cs| == 3
    ensures FirstFailure(cs) ==
            if !cs[0].ok then Err(Validation(cs[0].field, cs[0].reason))
            else if !cs[1].ok then Err(Validation(cs[1].field, cs[1].reason))
            else if !cs[2].ok then Err(Validation(cs[2].field, cs[2].reason))
            else Ok(())
  {
    UnfoldOne(cs);
    UnfoldOne(cs[1..]);
    UnfoldOne(cs[2..]);
    assert cs[1..][1..] == cs[2..];
    assert cs[2..][1..] == [];
  }

  lemma UnfoldFive(cs: seq<Check>)
    requires |cs| == 5
    ensures FirstFailure(cs) ==
            if !cs[0].ok then Err(Validation(cs[0].field, cs[0].reason))
            else if !cs[1].ok then Err(Validation(cs[1].field, cs[1].reason))
            else if !cs[2].ok then Err(Validation(cs[2].field, cs[2].reason))
            else if !cs[3].ok then Err(Validation(cs[3].field, cs[3].reason))
            else if !cs[4].ok then Err(Validation(cs[4].field, cs[4].reason))
            else Ok(())
  {
    UnfoldOne(cs);
    UnfoldOne(cs[1..]);
    assert cs[1..][1..] == cs[2..];
    UnfoldThree(cs[2..]);
  }

  predicate PortInRange(port: nat) { 1 <= port <= 65535 }

  function PortReason(port: nat): string {
    "must be between 1 and 65535, got " + NatToString(port)
  }

  // -------------------------------------------------------- lifelog-types/lib.rs

  /** `Validate for ServerConfig`: host, port, database endpoint, database name and
      server name, in that order. */
  function ValidateServer(c: ServerConfig): (r: Result<(), LifelogError>)
    ensures r.Ok? <==> c.host != [] && PortInRange(c.port) && c.databaseEndpoint != [] &&
                       c.databaseName != [] && c.serverName != []
  {
    if c.host == [] then Err(Validation("host", "must not be empty"))
    else if c.port == 0 || c.port > 65535 then Err(Validation("port", PortReason(c.port)))
    else if c.databaseEndpoint == [] then Err(Validation("database_endpoint", "must not be empty"))
    else if c.databaseName == [] then Err(Validation("database_name", "must not be empty"))
    else if c.serverName == [] then Err(Validation("server_name", "must not be empty"))
    else Ok(())
  }

  /** The checks of a server configuration, in the order they are made. */
  function ServerChecks(c: ServerConfig): seq<Check> {
    [Check(c.host != [], "host", "must not be empty"),
     Check(PortInRange(c.port), "port", PortReason(c.port)),
     Check(c.databaseEndpoint != [], "database_endpoint", "must not be empty"),
     Check(c.databaseName != [], "database_name", "must not be empty"),
     Check(c.serverName != [], "server_name", "must not be empty")]
  }

  /** The server validator reports the first failing check of the chain. */
  lemma ValidateServerIsChain(c: ServerConfig)
    ensures ValidateServer(c) == FirstFailure(ServerChecks(c))
  {
    UnfoldFive(ServerChecks(c));
  }

  /** `Validate for CollectorConfig`: id, host and port; then an enabled screen needs a
      positive interval and an enabled microphone a non-zero sample rate. */
  function ValidateCollector(c: CollectorConfig): (r: Result<(), LifelogError>)
    ensures r.Ok? <==> c.id != [] && c.host != [] && PortInRange(c.port) &&
                       (c.screen.Some? && c.screen.value.enabled ==> c.screen.value.interval > 0.0) &&
                       (c.microphone.Some? && c.microphone.value.enabled ==> c.microphone.value.sampleRate != 0)
    ensures r.Err? ==> r.error.Validation?
  {
    if c.id == [] then Err(Validation("id", "collector ID must not be empty"))
    else if c.host == [] then Err(Validation("host", "must not be empty"))
    else if c.port == 0 || c.port > 65535 then Err(Validation("port", PortReason(c.port)))
    else if c.screen.Some? && c.screen.value.enabled && c.screen.value.interval <= 0.0 then
      Err(Validation("screen.interval", "must be positive"))
    else if c.microphone.Some? && c.microphone.value.enabled && c.microphone.value.sampleRate == 0 then
      Err(Validation("microphone.sample_rate", "must be positive"))
    else Ok(())
  }

  function CollectorChecks(c: CollectorConfig): seq<Check> {
    [Check(c.id != [], "id", "collector ID must not be empty"),
     Check(c.host != [], "host", "must not be empty"),
     Check(PortInRange(c.port), "port", PortReason(c.port)),
     Check(!(c.screen.Some? && c.screen.value.enabled && c.screen.value.interval <= 0.0),
           "screen.interval", "must be positive"),
     Check(!(c.microphone.Some? && c.microphone.value.enabled && c.microphone.value.sampleRate == 0),
           "microphone.sample_rate", "must be positive")]
  }

  /** The collector validator reports the first failing check of the chain. */
  lemma ValidateCollectorIsChain(c: CollectorConfig)
    ensures ValidateCollector(c) == FirstFailure(CollectorChecks(c))
  {
    UnfoldFive(CollectorChecks(c));
  }

  /** An empty id is rejected, while id "test", host "localhost" and port 8080 with
      nothing else set pass. */
  lemma CollectorExamples(c: CollectorConfig)
    ensures ValidateCollector(c.(id := [])) == Err(Validation("id", "collector ID must not be empty"))
    ensures ValidateCollector(CollectorConfig("test", "localhost", 8080, None, None)) == Ok(())
  {
  }

  /** The error of a collector, with its field qualified as `collectors[<id>].<field>`;
      other errors pass through. */
  function Qualified(id: string, e: LifelogError): LifelogError {
    match e
    case Validation(f, reason) => Validation("collectors[" + id + "]." + f, reason)
    case _ => e
  }

  /** `Validate for SystemConfig`: the server (if any), then each collector in turn. */
  function ValidateSystem(s: SystemConfig): Result<(), LifelogError> {
    if s.server.Some? && ValidateServer(s.server.value).Err? then ValidateServer(s.server.value)
    else ValidateCollectors(s.collectors)
  }

  function ValidateCollectors(cs: seq<(string, CollectorConfig)>): Result<(), LifelogError>
    decreases |cs|
  {
    if cs == [] then Ok(())
    else match ValidateCollector(cs[0].1)
      case Err(e) => Err(Qualified(cs[0].0, e))
      case Ok(_) => ValidateCollectors(cs[1..])
  }

  /** A system configuration is valid iff its server and every collector are; when the
      server is fine, a failure is the first failing collector's error with its field
      qualified by the collector's id. */
  lemma {:induction false} ValidateSystemSpec(s: SystemConfig)
    ensures ValidateSystem(s).Ok? <==>
              (s.server.Some? ==> ValidateServer(s.server.value).Ok?) &&
              forall i :: 0 <= i < |s.collectors| ==> ValidateCollector(s.collectors[i].1).Ok?
    ensures (s.server.None? || ValidateServer(s.server.value).Ok?) && ValidateSystem(s).Err? ==>
              exists i :: 0 <= i < |s.collectors| &&
                (forall j :: 0 <= j < i ==> ValidateCollector(s.collectors[j].1).Ok?) &&
                var e := ValidateCollector(s.collectors[i].1);
                e.Err? && ValidateSystem(s) ==
                  Err(Validation("collectors[" + s.collectors[i].0 + "]." + e.error.field, e.error.reason))
  {
    CollectorsSpec(s.collectors);
  }

  lemma {:induction false} CollectorsSpec(cs: seq<(string, CollectorConfig)>)
    ensures ValidateCollectors(cs).Ok? <==> forall i :: 0 <= i < |cs| ==> ValidateCollector(cs[i].1).Ok?
    ensures ValidateCollectors(cs).Err? ==>
              exists i :: 0 <= i < |cs| &&
                (forall j :: 0 <= j < i ==> ValidateCollector(cs[j].1).Ok?) &&
                var e := ValidateCollector(cs[i].1);
                e.Err? && ValidateCollectors(cs) ==
                  Err(Validation("collectors[" + cs[i].0 + "]." + e.error.field, e.error.reason))
    decreases |cs|
  {
    if cs != [] && ValidateCollector(cs[0].1).Ok? {
      CollectorsSpec(cs[1..]);
      assert forall i :: 1 <= i < |cs| ==> cs[i] == cs[1..][i - 1];
      if ValidateCollectors(cs[1..]).Err? {
        var i :| 0 <= i < |cs[1..]| &&
                 (forall j :: 0 <= j < i ==> ValidateCollector(cs[1..][j].1).Ok?) &&
                 var e := ValidateCollector(cs[1..][i].1);
                 e.Err? && ValidateCollectors(cs[1..]) ==
                   Err(Validation("collectors[" + cs[1..][i].0 + "]." + e.error.field, e.error.reason));
        assert forall j :: 0 <= j < i + 1 ==> ValidateCollector(cs[j].1).Ok?;
        assert cs[i + 1] == cs[1..][i];
      }
    }
  }

  // ------------------------------------------------------ lifelog-types/validate.rs

  /** `Validate for lifelog_proto::ServerConfig`: the same five checks in the same order. */
  function ValidateProtoServer(c: ServerConfig): (r: Result<(), LifelogError>)
    ensures r == FirstFailure(ServerChecks(c))
  {
    UnfoldFive(ServerChecks(c));
    if c.host == [] then Err(Validation("host", "must not be empty"))
    else if c.port == 0 || c.port > 65535 then Err(Validation("port", PortReason(c.port)))
    else if c.databaseEndpoint == [] then Err(Validation("database_endpoint", "must not be empty"))
    else if c.databaseName == [] then Err(Validation("database_name", "must not be empty"))
    else if c.serverName == [] then Err(Validation("server_name", "must not be empty"))
    else Ok(())
  }

  /** `Validate for lifelog_proto::CollectorConfig`: only id, host and port. */
  function ValidateProtoCollector(c: CollectorConfig): (r: Result<(), LifelogError>)
    ensures r == FirstFailure(CollectorChecks(c)[..3])
  {
    UnfoldThree(CollectorChecks(c)[..3]);
    if c.id == [] then Err(Validation("id", "collector ID must not be empty"))
    else if c.host == [] then Err(Validation("host", "must not be empty"))
    else if c.port == 0 || c.port > 65535 then Err(Validation("port", PortReason(c.port)))
    else Ok(())
  }

  /** The two server validators agree; the proto collector validator accepts every
      configuration the full one accepts, and agrees with it when no screen or microphone
      is configured. */
  lemma ProtoValidatorsAgree(s: ServerConfig, c: CollectorConfig)
    ensures ValidateProtoServer(s) == ValidateServer(s)
    ensures ValidateCollector(c).Ok? ==> ValidateProtoCollector(c).Ok?
    ensures c.screen.None? && c.microphone.None? ==> ValidateProtoCollector(c) == ValidateCollector(c)
    ensures ValidateProtoCollector(c).Ok? <==> c.id != [] && c.host != [] && PortInRange(c.port)
  {
    ValidateServerIsChain(s);
    ValidateCollectorIsChain(c);
  }

  /** A port of 0 or above 65535 is reported with the port's value once host (and id)
      pass. */
  lemma PortMessage(c: ServerConfig)
    requires c.host != [] && !PortInRange(c.port)
    ensures ValidateProtoServer(c) == Err(Validation("port", "must be between 1 and 65535, got " + NatToString(c.port)))
  {
  }
}
