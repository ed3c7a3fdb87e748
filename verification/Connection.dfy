/** The connection and provisioning state machine of the Azure IoT device client. */
module Connection {
  import opened Wrappers

  datatype ConnectionType = NotDefined | Hostname | Dps | ConnectionString

  datatype AuthState = NotAuthenticated | AuthenticationInitiated | Authenticated | DeviceDisabled

  datatype DeviceState = DEVICE_NOT_CONNECTED | DEVICE_PROVISIONING_ERROR | DEVICE_PROVISIONING
                       | DEVICE_PROVISION_IOT_CLIENT | DEVICE_CONNECTED

  /** A call of the connection status callback by the hub client. */
  datatype HubEvent = HubEvent(authenticated: bool, disabledOrNoNetwork: bool)

  /** A call of the registration callback by the provisioning client. */
  datatype Registration = Registration(ok: bool, hubUri: Option<string>)

  /** How the libraries below answer during one step. */
  datatype Env = Env(
    networkConnected: bool,
    deviceAuthReady: bool,
    securityInit: bool,
    provCreate: bool,
    payload: bool,
    register: bool,
    registrations: seq<Registration>,
    hubCreate: bool,
    urlOption: bool,
    modelOption: bool,
    hubEvents: seq<HubEvent>)

  // ---------- the resources ----------

  /** The calls that take, use and give back a resource of the libraries below. */
  datatype Call = SecurityInit | SecurityDeinit | ProvCreate | ProvUse | ProvDestroy | HubCreate | HubUse | HubDestroy

  datatype Resources = Resources(hub: bool, prov: bool, security: bool)

  /** What a call does to the resources that are held; a use without the resource, a second creation of it and a
      second release of it are all errors. */
  function Replay1(r: Resources, call: Call): Option<Resources> {
    match call
    case SecurityInit => if r.security then None else Some(r.(security := true))
    case SecurityDeinit => if r.security && !r.prov then Some(r.(security := false)) else None
    case ProvCreate => if r.security && !r.prov then Some(r.(prov := true)) else None
    case ProvUse => if r.prov then Some(r) else None
    case ProvDestroy => if r.prov then Some(r.(prov := false)) else None
    case HubCreate => if r.hub then None else Some(r.(hub := true))
    case HubUse => if r.hub then Some(r) else None
    case HubDestroy => if r.hub then Some(r.(hub := false)) else None
  }

  /** The calls made so far, the last one outermost. */
  datatype Trace = Start | Then(before: Trace, call: Call)

  function Replay(calls: Trace): Option<Resources> {
    match calls
    case Start => Some(Resources(false, false, false))
    case Then(before, call) =>
      match Replay(before)
      case None => None
      case Some(r) => Replay1(r, call)
  }

  function Count(calls: Trace, call: Call): nat {
    match calls
    case Start => 0
    case Then(before, last) => Count(before, call) + if last == call then 1 else 0
  }

  /** In a run of calls without an error, every resource is given back as often as it is taken, but for the one that
      is still held. */
  lemma {:induction false} ReplayPairs(calls: Trace)
    requires Replay(calls).Some?
    ensures var r := Replay(calls).value;
            && Count(calls, HubCreate) - Count(calls, HubDestroy) == (if r.hub then 1 else 0)
            && Count(calls, ProvCreate) - Count(calls, ProvDestroy) == (if r.prov then 1 else 0)
            && Count(calls, SecurityInit) - Count(calls, SecurityDeinit) == (if r.security then 1 else 0)
  {
    if calls.Then? {
      ReplayPairs(calls.before);
    }
  }

  // ---------- the transitions ----------

  /** The user's configuration, and whether a plug and play model id is set. */
  datatype Config = Config(connectionType: ConnectionType, connectionString: string, modelId: bool)

  /** The registration status, the rounds waited for it, and the hub's URI. */
  datatype Provision = Provision(registered: bool, retries: nat, hubUri: string)

  /** The network state, and whether it is cached. */
  datatype Network = Network(cached: bool, up: bool)

  /** What the listeners were told, the last of it, and all. */
  datatype Listeners = Listeners(previous: bool, notified: seq<bool>)

  /** The static variables of the module, the notifications sent, and the calls made so far. */
  datatype State = State(
    auth: AuthState,
    device: DeviceState,
    held: Resources,
    dps: Provision,
    net: Network,
    listeners: Listeners,
    calls: Trace)

  const MAX_PROVISION_RETRY := 60

  const INITIAL := State(NotAuthenticated, DEVICE_NOT_CONNECTED, Resources(false, false, false),
                            Provision(false, 0, ""),
                         Network(false, false), Listeners(false, []), Start)

  /** No call so far was an error, and the resources held agree with the variables. */
  predicate Tracked(s: State) {
    Replay(s.calls) == Some(s.held)
  }

  /** What setting up a client leaves alone. */
  predicate SameListeners(s: State, t: State) {
    t.auth == s.auth && t.listeners == s.listeners
  }

  /** A call, and the variables for the resources that it leaves. */
  function Called(s: State, call: Call, held: Resources): (t: State)
    ensures Tracked(s) && Replay1(s.held, call) == Some(held) ==> Tracked(t)
  {
    s.(held := held, calls := Then(s.calls, call))
  }

  function InitSecurity(s: State): State {
    Called(s, SecurityInit, s.held.(security := true))
  }

  function DeinitSecurity(s: State): State {
    Called(s, SecurityDeinit, s.held.(security := false))
  }

  function CreateProv(s: State): State {
    Called(s, ProvCreate, s.held.(prov := true))
  }

  function UseProv(s: State): State {
    Called(s, ProvUse, s.held)
  }

  function DestroyProv(s: State): State {
    Called(s, ProvDestroy, s.held.(prov := false))
  }

  function CreateHub(s: State): State {
    Called(s, HubCreate, s.held.(hub := true))
  }

  function UseHub(s: State): State {
    Called(s, HubUse, s.held)
  }

  function DestroyHub(s: State): State {
    if s.held.hub then Called(s, HubDestroy, s.held.(hub := false)) else s
  }

  /** `isNetworkReady`: the state of the network, kept until the cache expires. */
  function CheckNetwork(s: State, env: Env): State {
    if s.net.cached then s else s.(net := Network(true, env.networkConnected))
  }

  /** `ProcessConnectionStatusCallbacks`. */
  function Notify(s: State, connected: bool): State {
    if connected == s.listeners.previous then s else s.(listeners := Listeners(connected,
        s.listeners.notified + [connected]))
  }

  function LoseNetwork(s: State): State {
    if !s.net.up && s.auth == Authenticated then s.(auth := NotAuthenticated, device := DEVICE_NOT_CONNECTED) else s
  }

  predicate Ready(s: State) {
    s.held.hub && s.auth == Authenticated && s.net.up
  }

  /** `dx_isAzureConnected`; the result is `previous` of the new state. */
  function IsAzureConnected(s: State, env: Env): State {
    var checked := LoseNetwork(CheckNetwork(s, env));
    Notify(checked, Ready(checked))
  }

  /** `HubConnectionStatusCallback`. */
  function HubCallback(s: State, event: HubEvent, env: Env): State {
    IsAzureConnected(
      if event.authenticated then s.(auth := Authenticated)
      else s.(auth := if event.disabledOrNoNetwork then DeviceDisabled else NotAuthenticated,
          device := DEVICE_NOT_CONNECTED),
      env)
  }

  function HubCallbacks(s: State, events: seq<HubEvent>, env: Env): State
    decreases |events|
  {
    if events == [] then s else HubCallbacks(HubCallback(s, events[0], env), events[1..], env)
  }

  /** `IoTHubDeviceClient_LL_DoWork`: a live client calls back, a NULL handle does not. */
  function HubDoWork(s: State, env: Env): State {
    HubCallbacks(UseHub(s), if s.held.hub then env.hubEvents else [], env)
  }

  /** `RegisterProvisioningDeviceCallback`; an absent URI and an empty one are the same to its reader. */
  function Registered(s: State, e: Registration): State {
    s.(dps := Provision(e.ok, s.dps.retries, if e.ok && e.hubUri.Some? then e.hubUri.value else s.dps.hubUri))
  }

  function Register(s: State, events: seq<Registration>): State
    decreases |events|
  {
    if events == [] then s
    else
      Register(Registered(s, events[0]), events[1..])
  }

  function StartProvisioning(s: State, env: Env, config: Config): State {
    var reset, failed := s.(dps := Provision(false, 0, s.dps.hubUri)), DEVICE_PROVISIONING_ERROR;
    if !env.securityInit then reset.(device := failed)
    else
      var secured := InitSecurity(reset);
      if !env.provCreate then secured.(device := failed, held := secured.held.(prov := false))
      else
        var created := CreateProv(secured);
        var described := if config.modelId then UseProv(created) else created;
        if config.modelId && !env.payload then described.(device := failed)
        else UseProv(described).(device := if env.register then DEVICE_PROVISIONING else failed)
  }

  function AwaitRegistration(s: State, env: Env): State {
    var worked := Register(UseProv(s), if s.held.prov then env.registrations else []);
    worked.(dps := worked.dps.(retries := s.dps.retries + 1),
            device := if s.dps.retries > MAX_PROVISION_RETRY then DEVICE_PROVISIONING_ERROR
                      else if worked.dps.registered then DEVICE_PROVISION_IOT_CLIENT else s.device)
  }

  /** `ConnectToIotHub`. */
  function ConnectToIotHub(s: State, env: Env, config: Config): (State, bool) {
    if s.dps.hubUri == "" then (s, false)
    else if !env.hubCreate then (s.(held := s.held.(hub := false)), false)
    else
      var created := UseHub(CreateHub(s));
      if !env.urlOption then (created, false)
      else if config.modelId then (UseHub(created), env.modelOption)
      else (created, true)
  }

  function ConnectClient(s: State, env: Env, config: Config): State {
    var (connected, ok) := ConnectToIotHub(s, env, config);
    if ok then connected.(device := DEVICE_CONNECTED) else DestroyHub(connected).(device := DEVICE_PROVISIONING_ERROR)
  }

  /** The end of `SetUpAzureIoTHubClientWithDpsPnP`. */
  function CleanUp(s: State): State {
    if s.device == DEVICE_CONNECTED || s.device == DEVICE_PROVISIONING_ERROR then
      var destroyed := if s.held.prov then DestroyProv(s) else s;
      if s.held.security then DeinitSecurity(destroyed) else destroyed
    else s
  }

  /** `SetUpAzureIoTHubClientWithDpsPnP`. */
  function SetUpWithDps(s: State, env: Env, config: Config): (State, bool) {
    if !env.deviceAuthReady then (s, false)
    else
      var checked := CheckNetwork(s, env);
      if !checked.net.up then (checked, false)
      else
        var next := CleanUp(
          match checked.device
          case DEVICE_NOT_CONNECTED => StartProvisioning(checked, env, config)
          case DEVICE_PROVISIONING_ERROR => StartProvisioning(checked, env, config)
          case DEVICE_PROVISIONING => AwaitRegistration(checked, env)
          case DEVICE_PROVISION_IOT_CLIENT => ConnectClient(checked, env, config)
          case DEVICE_CONNECTED => checked);
        (next, next.device == DEVICE_CONNECTED)
  }

  /** `SetUpAzureIoTHubClientWithConnectionString`. */
  function SetUpWithConnectionString(s: State, env: Env, connectionString: string): (State, bool) {
    var reset := s.(device := DEVICE_NOT_CONNECTED);
    var checked := CheckNetwork(reset, env);
    if !checked.net.up || connectionString == "" then (checked, false)
    else if !env.hubCreate then (checked.(held := checked.held.(hub := false)), false)
    else (UseHub(CreateHub(checked)).(device := DEVICE_CONNECTED), true)
  }

  /** `SetupAzureClient` up to its last test, and what that test finds. */
  function PrepareClient(s: State, env: Env, config: Config): (State, bool) {
    var destroyed := DestroyHub(s);
    var (next, ok) :=
      match config.connectionType
      case NotDefined => (destroyed, false)
      case Hostname => (destroyed, true)
      case Dps => SetUpWithDps(destroyed, env, config)
      case ConnectionString => SetUpWithConnectionString(destroyed, env, config.connectionString);
    (next, ok && next.device == DEVICE_CONNECTED)
  }

  /** `SetupAzureClient`. */
  function SetupClient(s: State, env: Env, config: Config): State {
    var (next, ok) := PrepareClient(s, env, config);
    if !ok then next else HubDoWork(UseHub(next).(auth := AuthenticationInitiated), env)
  }

  /** `AzureConnectionHandler`. */
  function Handle(s: State, env: Env, config: Config): State {
    var checked := LoseNetwork(CheckNetwork(s, env));
    match checked.auth
    case NotAuthenticated => SetupClient(checked, env, config)
    case AuthenticationInitiated => HubDoWork(checked, env)
    case Authenticated => HubDoWork(checked, env)
    case DeviceDisabled => checked.(auth := NotAuthenticated, device := DEVICE_NOT_CONNECTED)
  }

  /** `dx_azurePublish`; `properties` tells whether all properties of the message could be set. */
  function Publish(s: State, env: Env, length: nat, created: bool, properties: bool): State {
    if length == 0 then s
    else
      var checked := IsAzureConnected(s, env);
      if !checked.listeners.previous || !created then checked
      else HubDoWork(if properties then UseHub(checked) else checked, env)
  }

  // ---------- every run ----------

  /** What reaches the module: its timers, and calls of its two interface functions. */
  datatype Step =
    | HandlerTimer
    | NetworkCacheTimer
    | AskConnected
    | PublishMessage(length: nat, created: bool, properties: bool)

  function Next(s: State, step: Step, env: Env, config: Config): State {
    match step
    case HandlerTimer => Handle(s, env, config)
    case NetworkCacheTimer => s.(net := s.net.(cached := false))
    case AskConnected => IsAzureConnected(s, env)
    case PublishMessage(length, created, properties) => Publish(s, env, length, created, properties)
  }

  predicate Provisioning(s: State) {
    s.device == DEVICE_PROVISIONING || s.device == DEVICE_PROVISION_IOT_CLIENT
  }

  predicate Alternates(notified: seq<bool>, previous: bool) {
    && (forall i :: 0 <= i < |notified| ==> notified[i] == (i % 2 == 0))
    && previous == (|notified| % 2 == 1)
  }

  /** No call so far was an error, and the resources held are the ones the variables say.  The provisioning client and
      the security layer are held exactly while provisioning; then there is no hub client and no authentication.  A
      connected device has authenticated or is about to, and a device that has authenticated or is about to has a hub
      client.  Waiting for a registration ends.  Listeners hear of changes only. */
  predicate Safe(s: State, config: Config) {
    && Tracked(s)
    && s.held.prov == s.held.security == Provisioning(s)
    && (Provisioning(s) ==> s.auth == NotAuthenticated && !s.held.hub && config.connectionType == Dps)
    && (s.device == DEVICE_CONNECTED ==> s.auth == AuthenticationInitiated || s.auth == Authenticated)
    && (s.auth == AuthenticationInitiated || s.auth == Authenticated ==> s.held.hub)
    && (s.device == DEVICE_PROVISIONING ==> s.dps.retries <= MAX_PROVISION_RETRY + 1)
    && Alternates(s.listeners.notified, s.listeners.previous)
  }

  lemma CheckNetworkSafe(s: State, env: Env, config: Config)
    requires Safe(s, config)
    ensures Safe(LoseNetwork(CheckNetwork(s, env)), config)
  {
  }

  lemma NotifySafe(s: State, connected: bool, config: Config)
    requires Safe(s, config)
    ensures Safe(Notify(s, connected), config)
  {
  }

  function NotifyAll(s: State, reports: seq<bool>): State
    decreases |reports|
  {
    if reports == [] then s else NotifyAll(Notify(s, reports[0]), reports[1..])
  }

  /** The reports that differ from the one before. */
  function Changes(previous: bool, reports: seq<bool>): seq<bool> {
    if reports == [] then []
    else
      var n := |reports| - 1;
      Changes(previous, reports[..n])
      + if reports[n] == (if n == 0 then previous else reports[n - 1]) then [] else [reports[n]]
  }

  lemma {:induction false} NotifyNext(s: State, reports: seq<bool>, report: bool)
    ensures NotifyAll(s, reports + [report]) == Notify(NotifyAll(s, reports), report)
    decreases |reports|
  {
    hide Notify;
    if reports == [] {
      assert reports + [report] == [report] && [report][1..] == [];
    } else {
      assert (reports + [report])[1..] == reports[1..] + [report];
      NotifyNext(Notify(s, reports[0]), reports[1..], report);
    }
  }

  /** Over any list of reports the listeners are told of exactly those that differ from the report before. */
  lemma {:induction false} ListenersHearChanges(s: State, reports: seq<bool>)
    ensures var told := NotifyAll(s, reports).listeners;
            && told.notified == s.listeners.notified + Changes(s.listeners.previous, reports)
            && told.previous == if reports == [] then s.listeners.previous else reports[|reports| - 1]
    decreases |reports|
  {
    if reports != [] {
      var earlier, last := reports[..|reports| - 1], reports[|reports| - 1];
      assert earlier + [last] == reports;
      NotifyNext(s, earlier, last);
      ListenersHearChanges(s, earlier);
    }
  }

  lemma IsAzureConnectedSafe(s: State, env: Env, config: Config)
    requires Safe(s, config)
    ensures Safe(IsAzureConnected(s, env), config) && IsAzureConnected(s, env).held == s.held
    ensures var t := IsAzureConnected(s, env); t.listeners.previous == Ready(t)
  {
    hide Safe;
    CheckNetworkSafe(s, env, config);
    var checked := LoseNetwork(CheckNetwork(s, env));
    NotifySafe(checked, Ready(checked), config);
  }

  lemma {:induction false} HubCallbacksSafe(s: State, events: seq<HubEvent>, env: Env, config: Config)
    requires Safe(s, config) && s.held.hub
    ensures Safe(HubCallbacks(s, events, env), config)
    decreases |events|
  {
    if events != [] {
      var event := events[0];
      var called := if event.authenticated then s.(auth := Authenticated)
                    else s.(auth := if event.disabledOrNoNetwork then DeviceDisabled else NotAuthenticated,
                        device := DEVICE_NOT_CONNECTED);
      IsAzureConnectedSafe(called, env, config);
      HubCallbacksSafe(HubCallback(s, event, env), events[1..], env, config);
    }
  }

  lemma HubUseSafe(s: State, env: Env, config: Config)
    requires Safe(s, config) && s.held.hub
    ensures Safe(UseHub(s), config) && Safe(HubDoWork(s, env), config)
  {
    HubCallbacksSafe(UseHub(s), env.hubEvents, env, config);
  }

  /** `Safe`, but for a hub client that was just created, for which authentication is still to be initiated. */
  predicate SettingUp(s: State, config: Config) {
    && Tracked(s)
    && s.held.prov == s.held.security == Provisioning(s)
    && (Provisioning(s) ==> config.connectionType == Dps)
    && s.auth == NotAuthenticated
    && (s.held.hub <==> s.device == DEVICE_CONNECTED)
    && (s.device == DEVICE_PROVISIONING ==> s.dps.retries <= MAX_PROVISION_RETRY + 1)
    && Alternates(s.listeners.notified, s.listeners.previous)
  }

  lemma StartProvisioningTracked(s: State, env: Env, config: Config)
    requires Tracked(s) && !s.held.prov && !s.held.security
    ensures var t := StartProvisioning(s, env, config);
            && Tracked(t) && SameListeners(s, t)
            && t.held.hub == s.held.hub && (t.held.prov ==> t.held.security)
            && (t.device == DEVICE_PROVISIONING || t.device == DEVICE_PROVISIONING_ERROR)
            && (t.device == DEVICE_PROVISIONING ==> t.held.prov && t.dps.retries == 0)
  {
    hide Replay;
  }

  lemma {:induction false} RegisterTracked(s: State, events: seq<Registration>)
    requires Tracked(s)
    ensures var t := Register(s, events);
            && Tracked(t) && SameListeners(s, t)
            && t.held == s.held && t.device == s.device
    decreases |events|
  {
    hide Replay;
    if events != [] {
      var e := events[0];
      RegisterTracked(Registered(s, e), events[1..]);
    }
  }

  lemma AwaitRegistrationTracked(s: State, env: Env)
    requires Tracked(s) && s.held.prov && s.device == DEVICE_PROVISIONING
    ensures var t := AwaitRegistration(s, env);
            && Tracked(t) && SameListeners(s, t)
            && t.held == s.held
            && (t.device == DEVICE_PROVISIONING || t.device == DEVICE_PROVISIONING_ERROR ||
              t.device == DEVICE_PROVISION_IOT_CLIENT)
            && (t.device == DEVICE_PROVISIONING ==> t.dps.retries <= MAX_PROVISION_RETRY + 1)
  {
    hide Replay, Register;
    RegisterTracked(UseProv(s), env.registrations);
  }

  lemma ConnectToIotHubTracked(s: State, env: Env, config: Config)
    requires Tracked(s) && !s.held.hub
    ensures var (t, ok) := ConnectToIotHub(s, env, config);
            && Tracked(t) && SameListeners(s, t)
            && t.held.prov == s.held.prov && t.held.security == s.held.security && (ok ==> t.held.hub)
  {
    hide Replay;
  }

  lemma ConnectTracked(s: State, env: Env, config: Config)
    requires Tracked(s) && !s.held.hub
    ensures var t := ConnectClient(s, env, config);
            && Tracked(t) && SameListeners(s, t)
            && t.held.prov == s.held.prov && t.held.security == s.held.security
            && t.device == if t.held.hub then DEVICE_CONNECTED else DEVICE_PROVISIONING_ERROR
  {
    hide Replay, ConnectToIotHub;
    ConnectToIotHubTracked(s, env, config);
  }

  lemma CleanUpTracked(s: State)
    requires Tracked(s) && (s.held.prov ==> s.held.security)
    ensures var t := CleanUp(s);
            && Tracked(t) && SameListeners(s, t) && t.held.hub == s.held.hub && t.device == s.device &&
              t.dps.retries == s.dps.retries
            && (if s.device == DEVICE_CONNECTED || s.device == DEVICE_PROVISIONING_ERROR
                then !t.held.prov && !t.held.security
                else t.held.prov == s.held.prov && t.held.security == s.held.security)
  {
    hide Replay;
  }

  lemma SetUpWithDpsSafe(s: State, env: Env, config: Config)
    requires SettingUp(s, config) && !s.held.hub && config.connectionType == Dps
    ensures SettingUp(SetUpWithDps(s, env, config).0, config)
    ensures var (t, ok) := SetUpWithDps(s, env, config); ok == t.held.hub
  {
    hide Replay, StartProvisioning, AwaitRegistration, ConnectClient, CleanUp, Alternates;
    var checked := CheckNetwork(s, env);
    assert Tracked(checked);
    match checked.device {
      case DEVICE_PROVISIONING =>
        AwaitRegistrationTracked(checked, env);
        CleanUpTracked(AwaitRegistration(checked, env));
      case DEVICE_PROVISION_IOT_CLIENT =>
        ConnectTracked(checked, env, config);
        CleanUpTracked(ConnectClient(checked, env, config));
      case _ =>
        StartProvisioningTracked(checked, env, config);
        CleanUpTracked(StartProvisioning(checked, env, config));
    }
  }

  lemma PrepareClientSafe(s: State, env: Env, config: Config)
    requires Safe(s, config) && s.auth == NotAuthenticated
    ensures var (next, ok) := PrepareClient(s, env, config); SettingUp(next, config) && ok == next.held.hub
  {
    hide SetUpWithDps, SetUpWithConnectionString, Replay, Alternates;
    var destroyed := DestroyHub(s);
    assert SettingUp(destroyed, config);
    if config.connectionType == Dps {
      SetUpWithDpsSafe(destroyed, env, config);
    } else if config.connectionType == ConnectionString {
      SetUpWithConnectionStringSafe(destroyed, env, config);
    }
  }

  lemma {:induction false} HubCallbacksKeepHeld(s: State, events: seq<HubEvent>, env: Env)
    ensures HubCallbacks(s, events, env).held == s.held
    decreases |events|
  {
    if events != [] {
      HubCallbacksKeepHeld(HubCallback(s, events[0], env), events[1..], env);
    }
  }

  /** Setting up keeps the invariant, and says truly whether there is a hub client. */
  lemma SetupClientSafe(s: State, env: Env, config: Config)
    requires Safe(s, config) && s.auth == NotAuthenticated
    ensures Safe(SetupClient(s, env, config), config)
    ensures PrepareClient(s, env, config).1 == SetupClient(s, env, config).held.hub
  {
    hide PrepareClient, Replay, Alternates, HubCallbacks;
    PrepareClientSafe(s, env, config);
    var (next, ok) := PrepareClient(s, env, config);
    if ok {
      var initiated := UseHub(next).(auth := AuthenticationInitiated);
      HubUseSafe(initiated, env, config);
      HubCallbacksKeepHeld(UseHub(initiated), env.hubEvents, env);
    }
  }

  lemma SetUpWithConnectionStringSafe(s: State, env: Env, config: Config)
    requires SettingUp(s, config) && !s.held.hub && config.connectionType == ConnectionString
    ensures var (t, ok) := SetUpWithConnectionString(s, env, config.connectionString);
            && SettingUp(t, config)
            && ok == t.held.hub
  {
    hide Replay, Alternates;
  }

  /** Every step keeps the invariant, whatever the libraries below answer. */
  lemma NextSafe(s: State, step: Step, env: Env, config: Config)
    requires Safe(s, config)
    ensures Safe(Next(s, step, env, config), config)
  {
    hide Safe, HubDoWork, SetupClient;
    match step {
      case HandlerTimer =>
        CheckNetworkSafe(s, env, config);
        HandleSafe(LoseNetwork(CheckNetwork(s, env)), s, env, config);
      case NetworkCacheTimer =>
        CacheSafe(s, config);
      case AskConnected =>
        IsAzureConnectedSafe(s, env, config);
      case PublishMessage(_, _, _) =>
        IsAzureConnectedSafe(s, env, config);
        var checked := IsAzureConnected(s, env);
        if Ready(checked) {
          HubUseSafe(checked, env, config);
          HubUseSafe(UseHub(checked), env, config);
        }
    }
  }

  lemma CacheSafe(s: State, config: Config)
    requires Safe(s, config)
    ensures Safe(s.(net := s.net.(cached := false)), config)
  {
  }

  lemma HandleSafe(checked: State, s: State, env: Env, config: Config)
    requires Safe(checked, config) && checked == LoseNetwork(CheckNetwork(s, env))
    ensures Safe(Handle(s, env, config), config)
  {
    hide HubDoWork, SetupClient;
    match checked.auth {
      case NotAuthenticated => SetupClientSafe(checked, env, config);
      case DeviceDisabled =>
      case _ => HubUseSafe(checked, env, config);
    }
  }

  function RunAll(s: State, steps: seq<(Step, Env)>, config: Config): State
    decreases |steps|
  {
    if steps == [] then s else RunAll(Next(s, steps[0].0, steps[0].1, config), steps[1..], config)
  }

  /** Every run from the start is safe: no call on a NULL handle, no resource taken twice or given back twice, and none
      lost. */
  lemma {:induction false} RunIsSafe(s: State, steps: seq<(Step, Env)>, config: Config)
    requires Safe(s, config)
    ensures Safe(RunAll(s, steps, config), config)
    decreases |steps|
  {
    hide Safe, Next;
    if steps != [] {
      NextSafe(s, steps[0].0, steps[0].1, config);
      RunIsSafe(Next(s, steps[0].0, steps[0].1, config), steps[1..], config);
    }
  }

  // ---------- what single steps do ----------

  /** What `isNetworkReady` answers. */
  function NetworkUp(s: State, env: Env): bool {
    if s.net.cached then s.net.up else env.networkConnected
  }

  /** `dx_isAzureConnected` drops the authentication exactly when the network is lost, and answers whether an
      authenticated client is up. */
  lemma AskedExactly(s: State, env: Env)
    ensures var t, up := IsAzureConnected(s, env), NetworkUp(s, env);
            && t.net == Network(true, up) && t.held == s.held && t.dps == s.dps && t.calls == s.calls
            && (if s.auth == Authenticated && !up then t.auth == NotAuthenticated && t.device == DEVICE_NOT_CONNECTED
                else t.auth == s.auth && t.device == s.device)
            && t.listeners.previous == (s.held.hub && s.auth == Authenticated && up)
  {
  }

  /** A status callback with authentication keeps the device as it is while the network is up.  One without leads to the
      waiting state for a disabled device or a lost network, and to a new set-up otherwise; in both cases the device is
      no longer connected, and the listeners know. */
  lemma CallbackExactly(s: State, event: HubEvent, env: Env)
    ensures var t, up := HubCallback(s, event, env), NetworkUp(s, env);
            && t.net == Network(true, up) && t.held == s.held && t.calls == s.calls
            && (if event.authenticated then t.auth == if up then Authenticated else NotAuthenticated
                else t.auth == if event.disabledOrNoNetwork then DeviceDisabled else NotAuthenticated)
            && t.device == (if event.authenticated && up then s.device else DEVICE_NOT_CONNECTED)
            && t.listeners.previous == (event.authenticated && up && s.held.hub)
  {
  }

  /** After any callbacks of one DoWork the last one decides. */
  lemma {:induction false} LastCallbackDecides(s: State, events: seq<HubEvent>, env: Env)
    requires events != []
    ensures var t, up, last := HubCallbacks(s, events, env), NetworkUp(s, env), events[|events| - 1];
            && t.net == Network(true, up) && t.held == s.held && t.calls == s.calls
            && (if last.authenticated then t.auth == if up then Authenticated else NotAuthenticated
                else t.auth == if last.disabledOrNoNetwork then DeviceDisabled else NotAuthenticated)
            && (Ready(t) <==> last.authenticated && up && s.held.hub)
            && t.listeners.previous == Ready(t)
            && (!last.authenticated || !up ==> t.device == DEVICE_NOT_CONNECTED)
    decreases |events|
  {
    hide HubCallback;
    CallbackExactly(s, events[0], env);
    var next := HubCallback(s, events[0], env);
    if |events| > 1 {
      LastCallbackDecides(next, events[1..], env);
    } else {
      assert events[1..] == [];
    }
  }

  /** `later` is `earlier` with more calls behind it. */
  predicate Continues(later: Trace, earlier: Trace) {
    later == earlier || (later.Then? && Continues(later.before, earlier))
  }

  lemma {:induction false} ContinuesOn(c: Trace, b: Trace, a: Trace)
    requires Continues(c, b) && Continues(b, a)
    ensures Continues(c, a)
  {
    if c != b {
      ContinuesOn(c.before, b, a);
    }
  }

  lemma StartContinues(s: State, env: Env, config: Config)
    ensures Continues(StartProvisioning(s, env, config).calls, s.calls)
  {
    var c0 := s.calls;
    var c1 := Then(c0, SecurityInit);
    var c2 := Then(c1, ProvCreate);
    var c3 := Then(c2, ProvUse);
    assert Continues(c1, c0);
    assert Continues(c2, c0);
    assert Continues(c3, c0);
    assert Continues(Then(c3, ProvUse), c0);
  }

  lemma {:induction false} RegisterKeepsCalls(s: State, events: seq<Registration>)
    ensures Register(s, events).calls == s.calls
    decreases |events|
  {
    if events != [] {
      RegisterKeepsCalls(Registered(s, events[0]), events[1..]);
    }
  }

  lemma AwaitContinues(s: State, env: Env)
    ensures Continues(AwaitRegistration(s, env).calls, s.calls)
  {
    hide Register;
    RegisterKeepsCalls(UseProv(s), if s.held.prov then env.registrations else []);
    assert Continues(Then(s.calls, ProvUse), s.calls);
  }

  lemma ConnectContinues(s: State, env: Env, config: Config)
    ensures Continues(ConnectClient(s, env, config).calls, s.calls)
  {
    var c1 := Then(s.calls, HubCreate);
    var c2 := Then(c1, HubUse);
    var c3 := Then(c2, HubUse);
    assert Continues(c1, s.calls);
    assert Continues(c2, s.calls);
    assert Continues(c3, s.calls);
    assert Continues(Then(s.calls, HubDestroy), s.calls);
    assert Continues(Then(c2, HubDestroy), s.calls);
    assert Continues(Then(c3, HubDestroy), s.calls);
  }

  lemma CleanUpContinues(s: State)
    ensures Continues(CleanUp(s).calls, s.calls)
  {
    var c1 := Then(s.calls, ProvDestroy);
    assert Continues(c1, s.calls);
    assert Continues(Then(s.calls, SecurityDeinit), s.calls);
    assert Continues(Then(c1, SecurityDeinit), s.calls);
  }

  lemma DpsContinues(s: State, env: Env, config: Config)
    ensures Continues(SetUpWithDps(s, env, config).0.calls, s.calls)
  {
    hide StartProvisioning, AwaitRegistration, ConnectClient, CleanUp, Continues;
    Same(s.calls);
    var checked := CheckNetwork(s, env);
    StartContinues(checked, env, config);
    AwaitContinues(checked, env);
    ConnectContinues(checked, env, config);
    var next :=
      match checked.device
      case DEVICE_NOT_CONNECTED => StartProvisioning(checked, env, config)
      case DEVICE_PROVISIONING_ERROR => StartProvisioning(checked, env, config)
      case DEVICE_PROVISIONING => AwaitRegistration(checked, env)
      case DEVICE_PROVISION_IOT_CLIENT => ConnectClient(checked, env, config)
      case DEVICE_CONNECTED => checked;
    CleanUpContinues(next);
    ContinuesOn(CleanUp(next).calls, next.calls, s.calls);
  }

  lemma Same(calls: Trace)
    ensures Continues(calls, calls)
  {
  }

  lemma ConnectionStringContinues(s: State, env: Env, connectionString: string)
    ensures Continues(SetUpWithConnectionString(s, env, connectionString).0.calls, s.calls)
  {
    var c1 := Then(s.calls, HubCreate);
    assert Continues(c1, s.calls);
    assert Continues(Then(c1, HubUse), s.calls);
  }

  lemma WorkContinues(s: State, env: Env)
    ensures Continues(HubDoWork(s, env).calls, s.calls)
  {
    hide HubCallbacks;
    var events := if s.held.hub then env.hubEvents else [];
    if events != [] {
      LastCallbackDecides(UseHub(s), events, env);
    } else {
      NoCallbacks(UseHub(s), env);
    }
    assert Continues(Then(s.calls, HubUse), s.calls);
  }

  lemma NoCallbacks(s: State, env: Env)
    ensures HubCallbacks(s, [], env) == s
  {
  }

  /** A device that has lost its authentication destroys its hub client in the next round of the handler, before
      anything else is done.  A disabled device, or one that lost the network, leaves the waiting state in the next
      round, and does nothing else in it. */
  lemma NextRound(s: State, env: Env, config: Config)
    ensures s.auth == NotAuthenticated && s.held.hub ==>
              Continues(Handle(s, env, config).calls, Then(s.calls, HubDestroy))
    ensures s.auth == DeviceDisabled ==>
              var t := Handle(s, env, config);
              && t.auth == NotAuthenticated && t.device == DEVICE_NOT_CONNECTED
              && t.held == s.held && t.calls == s.calls
  {
    hide SetUpWithDps, SetUpWithConnectionString, HubDoWork, Continues;
    if s.auth == NotAuthenticated && s.held.hub {
      var checked := LoseNetwork(CheckNetwork(s, env));
      var destroyed := DestroyHub(checked);
      Same(destroyed.calls);
      DpsContinues(destroyed, env, config);
      ConnectionStringContinues(destroyed, env, config.connectionString);
      var (next, ok) := PrepareClient(checked, env, config);
      assert Continues(next.calls, destroyed.calls);
      if ok {
        var initiated := UseHub(next).(auth := AuthenticationInitiated);
        WorkContinues(initiated, env);
        OneMore(next.calls, HubUse);
        ContinuesOn(initiated.calls, next.calls, destroyed.calls);
        ContinuesOn(HubDoWork(initiated, env).calls, initiated.calls, destroyed.calls);
      }
    }
  }

  lemma OneMore(calls: Trace, call: Call)
    ensures Continues(Then(calls, call), calls)
  {
  }

  /** In a round with authentication under way or done, and the network up, the handler works on the hub client once;
      what follows is up to the callbacks, and nothing follows without any. */
  lemma WorkRound(s: State, env: Env, config: Config)
    requires s.held.hub && (s.auth == AuthenticationInitiated || (s.auth == Authenticated && NetworkUp(s, env)))
    ensures var t, events := Handle(s, env, config), env.hubEvents;
            && t.calls == Then(s.calls, HubUse) && t.held == s.held
            && (events == [] ==> t.auth == s.auth && t.device == s.device && t.listeners == s.listeners)
            && (events != [] ==> (Ready(t) <==> events[|events| - 1].authenticated && NetworkUp(s, env)))
  {
    hide HubCallbacks;
    var checked := CheckNetwork(s, env);
    if env.hubEvents == [] {
      NoCallbacks(UseHub(checked), env);
    } else {
      LastCallbackDecides(UseHub(checked), env.hubEvents, env);
    }
  }

  /** In a round without authentication the handler sets up a client.  When there is one, authentication is under way,
      or where the callbacks lead; otherwise there is still none. */
  lemma SetUpRound(s: State, env: Env, config: Config)
    requires Safe(s, config) && s.auth == NotAuthenticated
    ensures var t := Handle(s, env, config);
            && (!t.held.hub ==> t.auth == NotAuthenticated)
            && (t.held.hub && env.hubEvents == [] ==> t.auth == AuthenticationInitiated && t.device == DEVICE_CONNECTED)
            && (t.held.hub && env.hubEvents != [] ==>
                  (Ready(t) <==> env.hubEvents[|env.hubEvents| - 1].authenticated && t.net.up))
  {
    hide PrepareClient, HubCallbacks, Replay, Alternates;
    var checked := LoseNetwork(CheckNetwork(s, env));
    CheckNetworkSafe(s, env, config);
    PrepareClientSafe(checked, env, config);
    var (next, ok) := PrepareClient(checked, env, config);
    var worked := UseHub(UseHub(next).(auth := AuthenticationInitiated));
    if env.hubEvents == [] {
      NoCallbacks(worked, env);
    } else {
      LastCallbackDecides(worked, env.hubEvents, env);
    }
  }

  /** Publishing uses the hub client to send and then to work, just when the device is connected and the message was
      made; without all its properties the message is not sent. */
  lemma PublishUses(s: State, env: Env, length: nat, created: bool, properties: bool)
    ensures var t := Publish(s, env, length, created, properties);
            var connected := s.held.hub && s.auth == Authenticated && NetworkUp(s, env);
            t.calls == if length == 0 || !connected || !created then s.calls
                       else if properties then Then(Then(s.calls, HubUse), HubUse) else Then(s.calls, HubUse)
  {
    hide HubCallbacks, IsAzureConnected;
    AskedExactly(s, env);
    var checked := IsAzureConnected(s, env);
    var used := UseHub(if properties then UseHub(checked) else checked);
    if env.hubEvents == [] {
      NoCallbacks(used, env);
    } else {
      LastCallbackDecides(used, env.hubEvents, env);
    }
  }

  /** Where one round of provisioning leads: from rest into waiting for the registration, when everything is set up;
      from waiting to the hub client once the last registration was good, but to an error after more than sixty rounds;
      and then to a connected device when there is a URI and the client takes its options. */
  lemma ProvisioningStep(s: State, env: Env, config: Config)
    ensures var (t, ok) := SetUpWithDps(s, env, config);
            && ok == (t.device == DEVICE_CONNECTED && env.deviceAuthReady && NetworkUp(s, env))
            && (!env.deviceAuthReady || !NetworkUp(s, env) ==>
                  t.device == s.device && t.held == s.held && t.dps == s.dps && t.calls == s.calls)
            && (env.deviceAuthReady && NetworkUp(s, env) ==>
                  match s.device
                  case DEVICE_PROVISIONING =>
                    var registrations := if s.held.prov then env.registrations else [];
                    var good := if registrations == [] then s.dps.registered else registrations[|registrations| - 1].ok;
                    t.device == if s.dps.retries > 60 then DEVICE_PROVISIONING_ERROR
                                else if good then DEVICE_PROVISION_IOT_CLIENT else DEVICE_PROVISIONING
                  case DEVICE_PROVISION_IOT_CLIENT =>
                    t.device == if s.dps.hubUri != "" && env.hubCreate && env.urlOption
                                   && (config.modelId ==> env.modelOption)
                                then DEVICE_CONNECTED else DEVICE_PROVISIONING_ERROR
                  case DEVICE_CONNECTED => t.device == DEVICE_CONNECTED
                  case _ =>
                    t.device == if env.securityInit && env.provCreate && env.register
                                   && (config.modelId ==> env.payload)
                                then DEVICE_PROVISIONING else DEVICE_PROVISIONING_ERROR)
    ensures env.deviceAuthReady && NetworkUp(s, env) ==>
              var dps := SetUpWithDps(s, env, config).0.dps;
              && (s.device == DEVICE_NOT_CONNECTED || s.device == DEVICE_PROVISIONING_ERROR ==>
                    dps == Provision(false, 0, s.dps.hubUri))
              && (s.device == DEVICE_PROVISIONING ==> dps.retries == s.dps.retries + 1)
  {
    hide StartProvisioning, AwaitRegistration, ConnectClient, CleanUp;
    var checked := CheckNetwork(s, env);
    match s.device
    case DEVICE_PROVISIONING =>
      AwaitLeads(checked, env);
      CleanUpKeepsDevice(AwaitRegistration(checked, env));
    case DEVICE_PROVISION_IOT_CLIENT =>
      ConnectLeads(checked, env, config);
      CleanUpKeepsDevice(ConnectClient(checked, env, config));
    case DEVICE_CONNECTED =>
      CleanUpKeepsDevice(checked);
    case _ =>
      StartLeads(checked, env, config);
      CleanUpKeepsDevice(StartProvisioning(checked, env, config));
  }

  lemma CleanUpKeepsDevice(s: State)
    ensures CleanUp(s).device == s.device && CleanUp(s).dps == s.dps
  {
  }

  lemma StartLeads(s: State, env: Env, config: Config)
    ensures StartProvisioning(s, env, config).device ==
            if env.securityInit && env.provCreate && (config.modelId ==> env.payload) && env.register
            then DEVICE_PROVISIONING else DEVICE_PROVISIONING_ERROR
    ensures StartProvisioning(s, env, config).dps == Provision(false, 0, s.dps.hubUri)
  {
  }

  lemma ConnectLeads(s: State, env: Env, config: Config)
    ensures ConnectClient(s, env, config).device ==
            if s.dps.hubUri != "" && env.hubCreate && env.urlOption && (config.modelId ==> env.modelOption)
            then DEVICE_CONNECTED else DEVICE_PROVISIONING_ERROR
  {
  }

  lemma AwaitLeads(s: State, env: Env)
    requires s.device == DEVICE_PROVISIONING
    ensures var registrations := if s.held.prov then env.registrations else [];
            var good := if registrations == [] then s.dps.registered else registrations[|registrations| - 1].ok;
            AwaitRegistration(s, env).device ==
            if s.dps.retries > 60 then DEVICE_PROVISIONING_ERROR
            else if good then DEVICE_PROVISION_IOT_CLIENT else DEVICE_PROVISIONING
    ensures AwaitRegistration(s, env).dps.retries == s.dps.retries + 1
  {
    hide Register;
    LastUriIsKept(UseProv(s), if s.held.prov then env.registrations else []);
    RegisterNothing(UseProv(s));
  }

  lemma RegisterNothing(s: State)
    ensures Register(s, []) == s
  {
  }

  // ---------- what is remembered ----------

  /** The URI of the last successful registration that came with one. */
  function LastUri(events: seq<Registration>): Option<string> {
    if events == [] then None
    else
      var last := events[|events| - 1];
      if last.ok && last.hubUri.Some? then last.hubUri else LastUri(events[..|events| - 1])
  }

  lemma {:induction false} RegisterNext(s: State, events: seq<Registration>, e: Registration)
    ensures Register(s, events + [e]) == Registered(Register(s, events), e)
    decreases |events|
  {
    hide Registered;
    if events == [] {
      assert events + [e] == [e] && [e][1..] == [];
    } else {
      assert (events + [e])[1..] == events[1..] + [e];
      RegisterNext(Registered(s, events[0]), events[1..], e);
    }
  }

  /** However many registrations come in, failed ones among them: the URI is that of the last successful one that came
      with a URI, and the status that of the last one. */
  lemma {:induction false} LastUriIsKept(s: State, events: seq<Registration>)
    ensures Register(s, events).dps.hubUri == match LastUri(events) case None => s.dps.hubUri case Some(uri) => uri
    ensures events != [] ==> Register(s, events).dps.registered == events[|events| - 1].ok
  {
    if events != [] {
      var earlier, last := events[..|events| - 1], events[|events| - 1];
      assert earlier + [last] == events;
      RegisterNext(s, earlier, last);
      LastUriIsKept(s, earlier);
    }
  }

  lemma {:induction false} RegisterKeepsNetwork(s: State, events: seq<Registration>)
    ensures Register(s, events).net == s.net
    decreases |events|
  {
    if events != [] {
      RegisterKeepsNetwork(Registered(s, events[0]), events[1..]);
    }
  }

  lemma {:induction false} HubCallbacksUseCache(s: State, events: seq<HubEvent>, env: Env, up: bool)
    requires s.net.cached
    ensures HubCallbacks(s, events, env.(networkConnected := up)) == HubCallbacks(s, events, env)
    ensures HubCallbacks(s, events, env).net == s.net
    decreases |events|
  {
    if events != [] {
      HubCallbacksUseCache(HubCallback(s, events[0], env), events[1..], env, up);
    }
  }

  lemma HubDoWorkUsesCache(s: State, env: Env, up: bool)
    requires s.net.cached
    ensures HubDoWork(s, env.(networkConnected := up)) == HubDoWork(s, env) && HubDoWork(s, env).net == s.net
  {
    hide HubCallbacks, Replay;
    HubCallbacksUseCache(UseHub(s), env.hubEvents, env, up);
    HubCallbacksUseCache(UseHub(s), [], env, up);
  }

  lemma SetupUsesCache(s: State, env: Env, config: Config, up: bool)
    requires s.net.cached
    ensures SetupClient(s, env.(networkConnected := up), config) == SetupClient(s, env, config)
    ensures SetupClient(s, env, config).net == s.net
  {
    hide HubDoWork, SetUpWithDps, SetUpWithConnectionString, Replay;
    var destroyed := DestroyHub(s);
    DpsUsesCache(destroyed, env, config, up);
    StringUsesCache(destroyed, env, config, up);
    var next := match config.connectionType
      case Dps => SetUpWithDps(destroyed, env, config).0
      case ConnectionString => SetUpWithConnectionString(destroyed, env, config.connectionString).0
      case _ => destroyed;
    HubDoWorkUsesCache(UseHub(next).(auth := AuthenticationInitiated), env, up);
  }

  lemma DpsUsesCache(s: State, env: Env, config: Config, up: bool)
    requires s.net.cached
    ensures SetUpWithDps(s, env.(networkConnected := up), config) == SetUpWithDps(s, env, config)
    ensures SetUpWithDps(s, env, config).0.net == s.net
  {
    hide StartProvisioning, AwaitRegistration, ConnectClient, CleanUp, Replay;
    StartUsesCache(s, env, config, up);
    AwaitUsesCache(s, env, up);
    ConnectUsesCache(s, env, config, up);
    CleanUpLeaves(s);
    CleanUpLeaves(StartProvisioning(s, env, config));
    CleanUpLeaves(AwaitRegistration(s, env));
    CleanUpLeaves(ConnectClient(s, env, config));
  }

  lemma StartUsesCache(s: State, env: Env, config: Config, up: bool)
    ensures StartProvisioning(s, env.(networkConnected := up), config) == StartProvisioning(s, env, config)
    ensures StartProvisioning(s, env, config).net == s.net
  {
    hide Replay;
  }

  lemma AwaitUsesCache(s: State, env: Env, up: bool)
    ensures AwaitRegistration(s, env.(networkConnected := up)) == AwaitRegistration(s, env)
    ensures AwaitRegistration(s, env).net == s.net
  {
    hide Register, Replay;
    RegisterKeepsNetwork(UseProv(s), if s.held.prov then env.registrations else []);
  }

  lemma ConnectUsesCache(s: State, env: Env, config: Config, up: bool)
    ensures ConnectClient(s, env.(networkConnected := up), config) == ConnectClient(s, env, config)
    ensures ConnectClient(s, env, config).net == s.net
  {
    hide Replay;
  }

  lemma StringUsesCache(s: State, env: Env, config: Config, up: bool)
    requires s.net.cached
    ensures SetUpWithConnectionString(s, env.(networkConnected := up), config.connectionString)
         == SetUpWithConnectionString(s, env, config.connectionString)
    ensures SetUpWithConnectionString(s, env, config.connectionString).0.net == s.net
  {
    hide Replay;
  }

  /** While the network state is cached, no step asks for it again: the answer there would be does not matter. */
  lemma CacheIsUsed(s: State, step: Step, env: Env, config: Config, up: bool)
    requires s.net.cached && step != NetworkCacheTimer
    ensures Next(s, step, env.(networkConnected := up), config) == Next(s, step, env, config)
    ensures Next(s, step, env, config).net == s.net
  {
    hide HubDoWork, SetupClient, Replay;
    SetupUsesCache(LoseNetwork(s), env, config, up);
    HubDoWorkUsesCache(LoseNetwork(s), env, up);
    var checked := IsAzureConnected(s, env);
    HubDoWorkUsesCache(checked, env, up);
    HubDoWorkUsesCache(UseHub(checked), env, up);
  }

  /** Between two expiries of the cache the network is asked at most once: from a cached state, two runs whose answers
      about the network differ are the same. */
  lemma {:induction false} NetworkIsAskedOnce(s: State, steps: seq<(Step, Env)>, others: seq<(Step, Env)>,
                                              config: Config)
    requires s.net.cached && |others| == |steps|
    requires forall i :: 0 <= i < |steps| ==>
               && steps[i].0 != NetworkCacheTimer
               && others[i] == (steps[i].0, steps[i].1.(networkConnected := others[i].1.networkConnected))
    ensures RunAll(s, others, config) == RunAll(s, steps, config) && RunAll(s, steps, config).net == s.net
    decreases |steps|
  {
    hide Next;
    if steps != [] {
      CacheIsUsed(s, steps[0].0, steps[0].1, config, others[0].1.networkConnected);
      NetworkIsAskedOnce(Next(s, steps[0].0, steps[0].1, config), steps[1..], others[1..], config);
    }
  }

  // ---------- the way to a connection ----------

  /** Everything below answers well. */
  predicate Cooperates(env: Env) {
    && env.networkConnected && env.deviceAuthReady && env.securityInit && env.provCreate && env.payload && env.register
    && env.hubCreate && env.urlOption && env.modelOption
  }

  /** The way to a connection: in DPS mode, three rounds of the handler provision and authenticate the device, when the
      registration arrives in the second round and the hub accepts the device in the third. */
  lemma ProvisioningConnects(s: State, e1: Env, e2: Env, e3: Env, uri: string, config: Config)
    requires Safe(s, config) && config.connectionType == Dps && s.auth == NotAuthenticated && !Provisioning(s)
    requires s.net.cached ==> s.net.up
    requires Cooperates(e1) && Cooperates(e2) && Cooperates(e3) && uri != ""
    requires e2.registrations == [Registration(true, Some(uri))] && |e3.hubEvents| == 1 && e3.hubEvents[0].authenticated
    ensures var one := Handle(s, e1, config);
            var two := Handle(one, e2, config);
            var three := Handle(two, e3, config);
            && one.device == DEVICE_PROVISIONING && two.device == DEVICE_PROVISION_IOT_CLIENT
            && three.device == DEVICE_CONNECTED && Ready(three) && three.listeners.previous && three.dps.hubUri == uri
  {
    hide Replay, Alternates;
    NextSafe(s, HandlerTimer, e1, config);
    var one := Handle(s, e1, config);
    FirstRound(s, e1, config);
    NextSafe(one, HandlerTimer, e2, config);
    SecondRound(one, e2, uri, config);
    LastRound(Handle(one, e2, config), e3, config);
  }

  lemma FirstRound(s: State, env: Env, config: Config)
    requires Safe(s, config) && config.connectionType == Dps && s.auth == NotAuthenticated && !Provisioning(s)
    requires (s.net.cached ==> s.net.up) && Cooperates(env)
    ensures var t := Handle(s, env, config);
            t.device == DEVICE_PROVISIONING && t.dps.retries == 0 && t.net.up && t.net.cached
  {
    hide Replay, Alternates, CleanUp;
    var destroyed := DestroyHub(CheckNetwork(s, env));
    var started := StartProvisioning(destroyed, env, config);
    assert CleanUp(started) == started by {
      CleanUpKeeps(started);
    }
  }

  lemma SecondRound(s: State, env: Env, uri: string, config: Config)
    requires s.auth == NotAuthenticated && s.device == DEVICE_PROVISIONING && s.dps.retries == 0 && s.held.prov
    requires s.net.cached && s.net.up && config.connectionType == Dps
    requires Cooperates(env) && env.registrations == [Registration(true, Some(uri))]
    ensures var t := Handle(s, env, config);
            && t.device == DEVICE_PROVISION_IOT_CLIENT && t.auth == NotAuthenticated && t.dps.hubUri == uri
            && t.net.up && t.net.cached
  {
    hide CleanUp;
    var used := UseProv(DestroyHub(s));
    RegisterOne(used, env.registrations[0]);
    CleanUpKeeps(AwaitRegistration(DestroyHub(s), env));
  }

  lemma RegisterOne(s: State, r: Registration)
    ensures Register(s, [r]) == Registered(s, r)
  {
  }

  lemma LastRound(s: State, env: Env, config: Config)
    requires s.auth == NotAuthenticated && s.device == DEVICE_PROVISION_IOT_CLIENT && s.dps.hubUri != ""
    requires s.net.cached && s.net.up && config.connectionType == Dps
    requires Cooperates(env) && |env.hubEvents| == 1 && env.hubEvents[0].authenticated
    ensures var t := Handle(s, env, config);
            t.device == DEVICE_CONNECTED && Ready(t) && t.listeners.previous && t.dps.hubUri == s.dps.hubUri
  {
    hide SetUpWithDps, HubDoWork;
    ClientIsCreated(DestroyHub(s), env, config);
    var initiated := UseHub(SetUpWithDps(DestroyHub(s), env, config).0).(auth := AuthenticationInitiated);
    HubAccepts(initiated, env);
  }

  lemma ClientIsCreated(s: State, env: Env, config: Config)
    requires s.device == DEVICE_PROVISION_IOT_CLIENT && s.dps.hubUri != ""
    requires s.net.cached && s.net.up && Cooperates(env)
    ensures var (t, ok) := SetUpWithDps(s, env, config);
            && ok && t.device == DEVICE_CONNECTED && t.held.hub && t.auth == s.auth && t.dps == s.dps && t.net == s.net
  {
    hide Replay, ConnectClient, CleanUp;
    HubClientIsCreated(s, env, config);
    CleanUpLeaves(ConnectClient(s, env, config));
  }

  lemma HubClientIsCreated(s: State, env: Env, config: Config)
    requires s.dps.hubUri != "" && Cooperates(env)
    ensures var t := ConnectClient(s, env, config);
            && t.device == DEVICE_CONNECTED && t.held.hub && t.auth == s.auth && t.dps == s.dps && t.net == s.net
  {
    hide Replay;
  }

  lemma CleanUpLeaves(s: State)
    ensures var t := CleanUp(s);
            && t.device == s.device && t.held.hub == s.held.hub && t.auth == s.auth && t.dps == s.dps && t.net == s.net
  {
    hide Replay;
  }

  lemma HubAccepts(s: State, env: Env)
    requires s.held.hub && s.net.cached && s.net.up && |env.hubEvents| == 1 && env.hubEvents[0].authenticated
    ensures var t := HubDoWork(s, env);
            && t.device == s.device && Ready(t) && t.listeners.previous
            && t.dps.hubUri == s.dps.hubUri
  {
    HubCallbacksOne(UseHub(s), env.hubEvents, env);
  }

  lemma HubCallbacksOne(s: State, events: seq<HubEvent>, env: Env)
    requires |events| == 1
    ensures HubCallbacks(s, events, env) == HubCallback(s, events[0], env)
  {
    hide HubCallback;
    assert events[1..] == [];
  }

  lemma CleanUpKeeps(s: State)
    requires Provisioning(s)
    ensures CleanUp(s) == s
  {
  }

  lemma InitiallySafe(config: Config)
    ensures Safe(INITIAL, config)
  {
  }

  // ---------- the code ----------

  /** The static variables of the module. */
  class AzureClient {
    const config: Config
    var authenticationState: AuthState
    var deviceConnectionState: DeviceState
    var hubHandle: bool
    var provHandle: bool
    var securityInitCalled: bool
    var dpsRegistered: bool
    var provisionCompletedMaxRetry: nat
    var iotHubUri: string
    var networkReadyCached: bool
    var networkState: bool
    var previousConnectionState: bool
    /** What the listeners were told, and the calls made to the libraries below. */
    ghost var notified: seq<bool>
    ghost var calls: Trace

    ghost function View(): State
      reads this
    {
      State(authenticationState, deviceConnectionState, Resources(hubHandle, provHandle, securityInitCalled),
            Provision(dpsRegistered, provisionCompletedMaxRetry, iotHubUri), Network(networkReadyCached, networkState),
            Listeners(previousConnectionState, notified), calls)
    }

    constructor (config: Config)
      ensures View() == INITIAL && Safe(View(), config) && this.config == config
    {
      this.config := config;
      authenticationState, deviceConnectionState := NotAuthenticated, DEVICE_NOT_CONNECTED;
      hubHandle, provHandle, securityInitCalled, dpsRegistered := false, false, false, false;
      provisionCompletedMaxRetry, iotHubUri := 0, "";
      networkReadyCached, networkState, previousConnectionState := false, false, false;
      notified, calls := [], Start;
      new;
      InitiallySafe(config);
    }

    /** `isNetworkReady`. */
    method IsNetworkReady(env: Env) returns (ready: bool)
      modifies this
      ensures View() == CheckNetwork(old(View()), env) && ready == networkState
    {
      if networkReadyCached {
        return networkState;
      }
      networkState := env.networkConnected;
      networkReadyCached := true;
      return networkState;
    }

    /** `network_ready_expired_handler`. */
    method ExpireNetworkCache()
      modifies this
      ensures View() == old(View()).(net := old(View()).net.(cached := false))
    {
      networkReadyCached := false;
    }

    /** `ProcessConnectionStatusCallbacks`. */
    method ProcessConnectionStatusCallbacks(connected: bool)
      modifies this
      ensures View() == Notify(old(View()), connected)
    {
      if connected != previousConnectionState {
        previousConnectionState := connected;
        notified := notified + [connected];
      }
    }

    /** `dx_isAzureConnected`. */
    method IsConnected(env: Env) returns (connected: bool)
      modifies this
      ensures View() == IsAzureConnected(old(View()), env) && connected == previousConnectionState
    {
      var ready := IsNetworkReady(env);
      if !ready && authenticationState == Authenticated {
        authenticationState := NotAuthenticated;
        deviceConnectionState := DEVICE_NOT_CONNECTED;
        ProcessConnectionStatusCallbacks(false);
        return false;
      } else if hubHandle && authenticationState == Authenticated {
        ready := IsNetworkReady(env);
        if ready {
          ProcessConnectionStatusCallbacks(true);
          return true;
        }
      }
      ProcessConnectionStatusCallbacks(false);
      return false;
    }

    /** `HubConnectionStatusCallback`. */
    method HubConnectionStatusCallback(event: HubEvent, env: Env)
      modifies this
      ensures View() == HubCallback(old(View()), event, env)
    {
      hide IsAzureConnected;
      if !event.authenticated {
        if event.disabledOrNoNetwork {
          authenticationState := DeviceDisabled;
        } else {
          authenticationState := NotAuthenticated;
        }
        deviceConnectionState := DEVICE_NOT_CONNECTED;
      } else {
        authenticationState := Authenticated;
      }
      var _ := IsConnected(env);
    }

    /** `IoTHubDeviceClient_LL_DoWork`, as far as this module sees it. */
    method DoHubWork(env: Env)
      modifies this
      ensures View() == HubDoWork(old(View()), env)
    {
      hide HubCallback;
      calls := Then(calls, HubUse);
      if hubHandle {
        var i := 0;
        ghost var all := HubCallbacks(View(), env.hubEvents, env);
        assert env.hubEvents[0..] == env.hubEvents;
        while i < |env.hubEvents|
          invariant 0 <= i <= |env.hubEvents|
          invariant HubCallbacks(View(), env.hubEvents[i..], env) == all
        {
          assert env.hubEvents[i..][1..] == env.hubEvents[i + 1..];
          HubConnectionStatusCallback(env.hubEvents[i], env);
          i := i + 1;
        }
      }
    }

    /** `RegisterProvisioningDeviceCallback`. */
    method RegisterProvisioningDeviceCallback(registration: Registration)
      modifies this
      ensures View() == Register(old(View()), [registration])
    {
      dpsRegistered := registration.ok;
      if registration.ok && registration.hubUri.Some? {
        iotHubUri := registration.hubUri.value;
      }
    }

    /** `Prov_Device_LL_DoWork`, as far as this module sees it. */
    method DoProvWork(env: Env)
      modifies this
      ensures View() == Register(UseProv(old(View())), if old(provHandle) then env.registrations else [])
    {
      calls := Then(calls, ProvUse);
      if provHandle {
        var i := 0;
        ghost var all := Register(View(), env.registrations);
        assert env.registrations[0..] == env.registrations;
        while i < |env.registrations|
          invariant 0 <= i <= |env.registrations|
          invariant Register(View(), env.registrations[i..]) == all
        {
          assert env.registrations[i..][1..] == env.registrations[i + 1..];
          RegisterProvisioningDeviceCallback(env.registrations[i]);
          i := i + 1;
        }
      }
    }

    method DestroyHubClient()
      modifies this
      ensures View() == DestroyHub(old(View()))
    {
      if hubHandle {
        calls := Then(calls, HubDestroy);
        hubHandle := false;
      }
    }

    /** `ConnectToIotHub`. */
    method Connect(env: Env) returns (ok: bool)
      modifies this
      ensures (View(), ok) == ConnectToIotHub(old(View()), env, config)
      ensures ok <==>
              old(iotHubUri) != "" && env.hubCreate && env.urlOption && (config.modelId ==> env.modelOption)
      ensures ok ==> hubHandle
      ensures !ok && hubHandle && !old(hubHandle) ==> !env.urlOption || (config.modelId && !env.modelOption)
    {
      if |iotHubUri| == 0 {
        return false;
      }
      hubHandle := env.hubCreate;
      if !hubHandle {
        return false;
      }
      calls := Then(Then(calls, HubCreate), HubUse);
      if !env.urlOption {
        return false;
      }
      if config.modelId {
        calls := Then(calls, HubUse);
        if !env.modelOption {
          return false;
        }
      }
      return true;
    }

    /** The first part of `SetUpAzureIoTHubClientWithDpsPnP`. */
    method StartProvision(env: Env)
      modifies this
      ensures View() == StartProvisioning(old(View()), env, config)
    {
      dpsRegistered := false;
      provisionCompletedMaxRetry := 0;
      if !env.securityInit {
        deviceConnectionState := DEVICE_PROVISIONING_ERROR;
        return;
      }
      calls := Then(calls, SecurityInit);
      securityInitCalled := true;
      provHandle := env.provCreate;
      if !provHandle {
        deviceConnectionState := DEVICE_PROVISIONING_ERROR;
        return;
      }
      calls := Then(calls, ProvCreate);
      if config.modelId {
        calls := Then(calls, ProvUse);
        if !env.payload {
          deviceConnectionState := DEVICE_PROVISIONING_ERROR;
          return;
        }
      }
      calls := Then(calls, ProvUse);
      if !env.register {
        deviceConnectionState := DEVICE_PROVISIONING_ERROR;
        return;
      }
      deviceConnectionState := DEVICE_PROVISIONING;
    }

    /** `SetUpAzureIoTHubClientWithDpsPnP`. */
    method SetUpAzureIoTHubClientWithDpsPnP(env: Env) returns (ok: bool)
      modifies this
      ensures (View(), ok) == SetUpWithDps(old(View()), env, config)
    {
      hide StartProvisioning, Register, ConnectToIotHub, DestroyHub, UseProv;
      if !env.deviceAuthReady {
        return false;
      }
      var ready := IsNetworkReady(env);
      if !ready {
        return false;
      }
      match deviceConnectionState {
        case DEVICE_NOT_CONNECTED => StartProvision(env);
        case DEVICE_PROVISIONING_ERROR => StartProvision(env);
        case DEVICE_PROVISIONING =>
          AwaitRegistered(env);
        case DEVICE_PROVISION_IOT_CLIENT =>
          ProvisionClient(env);
        case DEVICE_CONNECTED =>
      }
      ReleaseProvisioning();
      return deviceConnectionState == DEVICE_CONNECTED;
    }

    method AwaitRegistered(env: Env)
      modifies this
      ensures View() == AwaitRegistration(old(View()), env)
    {
      hide Register;
      RegisterTouches(UseProv(View()), if provHandle then env.registrations else []);
      DoProvWork(env);
      if dpsRegistered {
        deviceConnectionState := DEVICE_PROVISION_IOT_CLIENT;
      }
      provisionCompletedMaxRetry := provisionCompletedMaxRetry + 1;
      if provisionCompletedMaxRetry - 1 > MAX_PROVISION_RETRY {
        deviceConnectionState := DEVICE_PROVISIONING_ERROR;
      }
    }

    method ProvisionClient(env: Env)
      modifies this
      ensures View() == ConnectClient(old(View()), env, config)
    {
      hide ConnectToIotHub, DestroyHub;
      var ok := Connect(env);
      if !ok {
        DestroyHubClient();
        deviceConnectionState := DEVICE_PROVISIONING_ERROR;
      } else {
        deviceConnectionState := DEVICE_CONNECTED;
      }
    }

    method ReleaseProvisioning()
      modifies this
      ensures View() == CleanUp(old(View()))
    {
      if deviceConnectionState == DEVICE_CONNECTED || deviceConnectionState == DEVICE_PROVISIONING_ERROR {
        if provHandle {
          calls := Then(calls, ProvDestroy);
          provHandle := false;
        }
        if securityInitCalled {
          calls := Then(calls, SecurityDeinit);
          securityInitCalled := false;
        }
      }
    }

    /** `SetUpAzureIoTHubClientWithConnectionString`. */
    method SetUpAzureIoTHubClientWithConnectionString(env: Env) returns (ok: bool)
      modifies this
      ensures (View(), ok) == SetUpWithConnectionString(old(View()), env, config.connectionString)
      ensures ok <==> networkState && config.connectionString != "" && env.hubCreate
      ensures ok <==> deviceConnectionState == DEVICE_CONNECTED
      ensures ok ==> hubHandle
      ensures provHandle == old(provHandle) && securityInitCalled == old(securityInitCalled)
    {
      deviceConnectionState := DEVICE_NOT_CONNECTED;
      var ready := IsNetworkReady(env);
      if !ready || |config.connectionString| == 0 {
        return false;
      }
      hubHandle := env.hubCreate;
      if !hubHandle {
        return false;
      }
      calls := Then(Then(calls, HubCreate), HubUse);
      deviceConnectionState := DEVICE_CONNECTED;
      return true;
    }

    /** `SetupAzureClient` up to its last test. */
    method PrepareAzureClient(env: Env) returns (ok: bool)
      modifies this
      ensures (View(), ok) == PrepareClient(old(View()), env, config)
    {
      hide SetUpWithDps, SetUpWithConnectionString, DestroyHub;
      DestroyHubClient();
      match config.connectionType {
        case Hostname =>
        case Dps =>
          ok := SetUpAzureIoTHubClientWithDpsPnP(env);
          if !ok {
            return;
          }
        case ConnectionString =>
          ok := SetUpAzureIoTHubClientWithConnectionString(env);
          if !ok {
            return;
          }
        case NotDefined => return false;
      }
      return deviceConnectionState == DEVICE_CONNECTED;
    }

    /** `SetupAzureClient`. */
    method SetupAzureClient(env: Env) returns (ok: bool)
      modifies this
      ensures View() == SetupClient(old(View()), env, config) && ok == PrepareClient(old(View()), env, config).1
      ensures Safe(old(View()), config) && old(authenticationState) == NotAuthenticated ==>
                Safe(View(), config) && ok == hubHandle
    {
      hide PrepareClient, HubDoWork, Safe;
      if Safe(View(), config) && authenticationState == NotAuthenticated {
        SetupClientSafe(View(), env, config);
      }
      ok := PrepareAzureClient(env);
      if ok {
        authenticationState := AuthenticationInitiated;
        calls := Then(calls, HubUse);
        DoHubWork(env);
      }
    }

    /** `AzureConnectionHandler`. */
    method AzureConnectionHandler(env: Env)
      modifies this
      ensures View() == Handle(old(View()), env, config)
    {
      hide SetupClient, HubDoWork;
      var ready := IsNetworkReady(env);
      if !ready && authenticationState == Authenticated {
        authenticationState := NotAuthenticated;
        deviceConnectionState := DEVICE_NOT_CONNECTED;
      }
      match authenticationState {
        case NotAuthenticated =>
          var _ := SetupAzureClient(env);
        case AuthenticationInitiated =>
          DoHubWork(env);
        case Authenticated =>
          DoHubWork(env);
        case DeviceDisabled =>
          authenticationState := NotAuthenticated;
          deviceConnectionState := DEVICE_NOT_CONNECTED;
      }
    }

    /** `dx_azurePublish`; `sent` is the answer of `IoTHubDeviceClient_LL_SendEventAsync`.  When a property cannot be
        set nothing is sent, and the C code returns a variable it has not set: `undefined` stands for its value. */
    method AzurePublish(env: Env, length: nat, created: bool, properties: bool, sent: bool, undefined: bool)
        returns (ok: bool)
      modifies this
      ensures View() == Publish(old(View()), env, length, created, properties)
      ensures length == 0 ==> ok
      ensures length > 0 && !IsAzureConnected(old(View()), env).listeners.previous ==> !ok
      ensures length > 0 && properties ==>
                ok == (IsAzureConnected(old(View()), env).listeners.previous && created && sent)
    {
      hide IsAzureConnected, HubDoWork;
      if length == 0 {
        return true;
      }
      var connected := IsConnected(env);
      if !connected || !created {
        return false;
      }
      ok := undefined;
      if properties {
        calls := Then(calls, HubUse);
        ok := sent;
      }
      DoHubWork(env);
    }
  }

  lemma {:induction false} RegisterTouches(s: State, events: seq<Registration>)
    ensures Register(s, events).dps.retries == s.dps.retries && Register(s, events).device == s.device
    decreases |events|
  {
    if events != [] {
      RegisterTouches(Registered(s, events[0]), events[1..]);
    }
  }

  /** Any run of the code from the start: its timers fire, and its interface is called, in any order and with any
      answers of the libraries below. */
  method Run(steps: seq<(Step, Env)>, config: Config) returns (client: AzureClient)
    ensures fresh(client) && client.View() == RunAll(INITIAL, steps, config) && Safe(client.View(), config)
  {
    hide Safe, Handle, IsAzureConnected, Publish;
    client := new AzureClient(config);
    var i := 0;
    assert steps[0..] == steps;
    while i < |steps|
      invariant 0 <= i <= |steps| && fresh(client) && client.config == config
      invariant RunAll(client.View(), steps[i..], config) == RunAll(INITIAL, steps, config)
    {
      var (step, env) := steps[i];
      assert steps[i..][1..] == steps[i + 1..];
      match step {
        case HandlerTimer => client.AzureConnectionHandler(env);
        case NetworkCacheTimer => client.ExpireNetworkCache();
        case AskConnected =>
          var _ := client.IsConnected(env);
        case PublishMessage(length, created, properties) =>
          var sent, undefined := *, *;
          var _ := client.AzurePublish(env, length, created, properties, sent, undefined);
      }
      i := i + 1;
    }
    InitiallySafe(config);
    RunIsSafe(INITIAL, steps, config);
  }
}
