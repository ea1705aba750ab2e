/**
 Authored classification decisions and the field-by-field validation of one decision against the source
 it classifies. Validation reports every problem it finds; a decision is sound if it finds none.
 */
module Decisions {
  import opened Bytes
  import opened Ordering

  datatype AuthStrategy =
    | NoAuth | Secrets | CliProfile | OAuthSession | BrowserProfile | NativePermission | DelegatedCredential

  datatype AuthRequirement = NotRequired | Optional | Required | Conditional | AtLeastOne

  datatype ProfilePolicy = NoProfile | Selectable | Fixed | Implicit

  datatype ProfileSource = NoSource | SchemaSelector | RuntimeNamed | FixedBinding | CliActiveIdentity | SessionIdentity

  datatype Profile = Profile(policy: ProfilePolicy, source: ProfileSource, selector: Option<string>, fixedAlias: Option<string>)

  datatype SessionOwner =
    | NoOwner | Runtime | Cli | BrowserController | OperatingSystem | DelegatedExecutor | LegacyProtocolWrapper | OfficialSdk

  datatype SessionStore =
    | NoStore | ScopedSecretStore | ScopedCliDirectory | CliOwnedStore | ScopedSkillCache | BrowserProfileStore
    | OsPermissionStore | EphemeralGrant

  datatype Session = Session(owner: SessionOwner, store: SessionStore)

  datatype SetupPath =
    | NoSetup | OperatorSecretBinding | ExternalCliLogin | SchemaAuthHook | BrowserLogin | OsSettings
    | DelegatedGrant | AuthBrokerBrowserOauth | ExternalCliQrLogin

  datatype IdentityVerification =
    | NoVerification | ProviderRequest | CliStatus | SchemaCheckHook | BrowserSessionEvidence | OsPermissionCheck
    | GrantBinding | SdkCredentialStatus | CliSession

  datatype ApprovalClass =
    | Ordinary | ConditionalExternalSideEffect | DelegatedWorkspaceWrite | NativeUiControl | CommerceCheckout

  datatype RuntimeOwner = ExternalCli | SkillAdapter | CompiledProvider | HostGateway | LegacyMcpWrapper | OfficialMcpSdk

  datatype AdapterRole =
    | RuntimeEntrypoint | ProtocolImplementation | PolicyImplementation | ArtifactBridge
    | Installer | Verifier | Test | Support

  datatype Ownership = ProtocolAdapter | PolicyAdapter | ArtifactAdapter | RemovablePlumbing | NotWrapper

  datatype AdapterFile = AdapterFile(skill: string, path: string)

  /** The inventoried facts of one skill that classification looks at. */
  datatype SkillSource = SkillSource(
    id: string,
    adapterFiles: seq<string>,
    kind: Option<string>,
    program: Option<string>,
    requiredEnvNames: seq<string>,
    authDeclared: bool,
    profileSelectors: seq<string>)

  /** What a group decides for each of its skills. */
  datatype Decision = Decision(
    strategies: seq<AuthStrategy>,
    requirement: AuthRequirement,
    provider: Option<string>,
    profile: Profile,
    session: Session,
    setup: SetupPath,
    verification: IdentityVerification,
    approval: ApprovalClass,
    owner: RuntimeOwner)

  datatype AdapterGroup = AdapterGroup(files: seq<AdapterFile>, role: AdapterRole, ownership: seq<Ownership>)

  // ----- Meaning

  const MAX_IDENTIFIER_BYTES: nat := 256

  predicate SafeIdentifier(value: string) {
    && 0 < |value| <= MAX_IDENTIFIER_BYTES
    && forall i :: 0 <= i < |value| ==>
         'a' <= value[i] <= 'z' || 'A' <= value[i] <= 'Z' || '0' <= value[i] <= '9' || value[i] in "-_."
  }

  /** The session owners under which a strategy can stand beside others; secrets go with any. */
  function Owners(strategy: AuthStrategy): set<SessionOwner> {
    match strategy
    case CliProfile => {Cli}
    case OAuthSession => {Cli, LegacyProtocolWrapper, OfficialSdk}
    case BrowserProfile => {BrowserController}
    case NativePermission => {OperatingSystem}
    case DelegatedCredential => {BrowserController, DelegatedExecutor}
    case _ =>
      {NoOwner, Runtime, Cli, BrowserController, OperatingSystem, DelegatedExecutor, LegacyProtocolWrapper, OfficialSdk}
  }

  /** Where the sessions of an owner are kept. */
  function Stores(owner: SessionOwner): set<SessionStore> {
    match owner
    case NoOwner => {NoStore}
    case Runtime => {ScopedSecretStore}
    case Cli => {ScopedCliDirectory, CliOwnedStore}
    case BrowserController => {BrowserProfileStore}
    case OperatingSystem => {OsPermissionStore}
    case DelegatedExecutor => {EphemeralGrant}
    case LegacyProtocolWrapper => {ScopedSkillCache}
    case OfficialSdk => {ScopedSecretStore}
  }

  predicate ProfileSound(source: SkillSource, profile: Profile) {
    && (profile.selector.Some? ==> SafeIdentifier(profile.selector.value))
    && (profile.fixedAlias.Some? ==> SafeIdentifier(profile.fixedAlias.value))
    && (profile.fixedAlias.Some? <==> profile.policy.Fixed?)
    && (profile.selector.Some? <==> profile.source.SchemaSelector?)
    && (profile.selector.Some? ==> profile.selector.value in source.profileSelectors)
    && (source.profileSelectors != [] ==> profile.source.SchemaSelector?)
    && profile.source in
         match profile.policy
         case NoProfile => {NoSource}
         case Selectable => {SchemaSelector, RuntimeNamed}
         case Fixed => {FixedBinding}
         case Implicit => {CliActiveIdentity, SessionIdentity}
  }

  /** A decision without authentication: every field says so, and the source asks for none. */
  predicate Unauthenticated(source: SkillSource, d: Decision) {
    && d.strategies == [NoAuth]
    && d.requirement.NotRequired? && d.provider.None?
    && d.session == Session(NoOwner, NoStore)
    && d.setup.NoSetup? && d.verification.NoVerification?
    && source.requiredEnvNames == [] && !source.authDeclared
  }

  /** A decision with authentication: every field is filled in, and one owner serves all strategies. */
  ghost predicate Authenticated(source: SkillSource, d: Decision) {
    && d.strategies != [] && Distinct(d.strategies) && NoAuth !in d.strategies
    && !d.requirement.NotRequired?
    && d.provider.Some? && SafeIdentifier(d.provider.value)
    && !d.session.owner.NoOwner? && d.session.store in Stores(d.session.owner)
    && !d.setup.NoSetup? && !d.verification.NoVerification?
    && (source.requiredEnvNames != [] ==> Secrets in d.strategies)
    && (forall strategy :: strategy in d.strategies ==> d.session.owner in Owners(strategy))
    && (d.strategies == [Secrets] ==> d.session.owner.Runtime?)
  }

  ghost predicate DecisionSound(source: SkillSource, d: Decision) {
    ProfileSound(source, d.profile) && (Unauthenticated(source, d) || Authenticated(source, d))
  }

  /** The ownership a wrapper role stands for; the other roles are no wrappers. */
  function RequiredOwnership(role: AdapterRole): Option<Ownership> {
    match role
    case RuntimeEntrypoint => Some(RemovablePlumbing)
    case ProtocolImplementation => Some(ProtocolAdapter)
    case PolicyImplementation => Some(PolicyAdapter)
    case ArtifactBridge => Some(ArtifactAdapter)
    case _ => None
  }

  /** A role that wraps nothing is owned as exactly that; a wrapper role has its own kind of ownership. */
  ghost predicate AdapterGroupSound(group: AdapterGroup) {
    && group.files != [] && Distinct(group.ownership)
    && match RequiredOwnership(group.role)
       case None => group.ownership == [NotWrapper]
       case Some(required) => required in group.ownership && NotWrapper !in group.ownership
  }

  // ----- Consequences

  /** Two strategies that no single session owner serves never stand in one sound decision. */
  lemma StrategiesShareAnOwner(source: SkillSource, d: Decision, a: AuthStrategy, b: AuthStrategy)
    requires DecisionSound(source, d) && a in d.strategies && b in d.strategies
    ensures Owners(a) * Owners(b) != {}
  {
    assert d.session.owner in Owners(a) * Owners(b);
  }

  /** A sound decision is without authentication in one field exactly when it is in every field. */
  lemma NoAuthenticationAnywhere(source: SkillSource, d: Decision)
    requires DecisionSound(source, d)
    ensures var none := d.strategies == [NoAuth];
      && (NoAuth in d.strategies <==> none)
      && (d.requirement.NotRequired? <==> none)
      && (d.provider.None? <==> none)
      && (d.session.owner.NoOwner? <==> none) && (d.session.store.NoStore? <==> none)
      && (d.setup.NoSetup? <==> none) && (d.verification.NoVerification? <==> none)
  {
  }

  /** Which session each strategy can have, strategy by strategy. */
  lemma SessionTable(strategy: AuthStrategy, owner: SessionOwner, store: SessionStore)
    ensures owner in Owners(strategy) && store in Stores(owner) <==>
      match strategy
      case CliProfile => owner == Cli && (store == ScopedCliDirectory || store == CliOwnedStore)
      case OAuthSession =>
        || (owner == Cli && (store == ScopedCliDirectory || store == CliOwnedStore))
        || (owner == LegacyProtocolWrapper && store == ScopedSkillCache)
        || (owner == OfficialSdk && store == ScopedSecretStore)
      case BrowserProfile => owner == BrowserController && store == BrowserProfileStore
      case NativePermission => owner == OperatingSystem && store == OsPermissionStore
      case DelegatedCredential =>
        || (owner == BrowserController && store == BrowserProfileStore)
        || (owner == DelegatedExecutor && store == EphemeralGrant)
      case _ =>
        match store
        case NoStore => owner == NoOwner
        case ScopedSecretStore => owner == Runtime || owner == OfficialSdk
        case ScopedCliDirectory => owner == Cli
        case CliOwnedStore => owner == Cli
        case ScopedSkillCache => owner == LegacyProtocolWrapper
        case BrowserProfileStore => owner == BrowserController
        case OsPermissionStore => owner == OperatingSystem
        case EphemeralGrant => owner == DelegatedExecutor
  {
  }

  /** Soundness of a whole decision, strategy by strategy and against the source's own requirements. */
  lemma SoundExactlyWhen(source: SkillSource, d: Decision)
    ensures DecisionSound(source, d) <==>
      && ProfileSound(source, d.profile)
      && d.strategies != [] && (forall i, j :: 0 <= i < j < |d.strategies| ==> d.strategies[i] != d.strategies[j])
      && (forall i :: 0 <= i < |d.strategies| ==>
            d.session.owner in Owners(d.strategies[i]) && d.session.store in Stores(d.session.owner))
      && (source.requiredEnvNames != [] ==> exists i :: 0 <= i < |d.strategies| && d.strategies[i] == Secrets)
      && if d.strategies[0] == NoAuth then
           && |d.strategies| == 1 && !source.authDeclared
           && d == Decision([NoAuth], NotRequired, None, d.profile, Session(NoOwner, NoStore), NoSetup, NoVerification,
                            d.approval, d.owner)
         else
           && (forall i :: 0 <= i < |d.strategies| ==> d.strategies[i] != NoAuth)
           && d.requirement != NotRequired && d.provider.Some? && SafeIdentifier(d.provider.value)
           && d.session.owner != NoOwner && d.setup != NoSetup && d.verification != NoVerification
           && (|d.strategies| == 1 && d.strategies[0] == Secrets ==> d.session.owner == Runtime)
  {
    hide ProfileSound, SafeIdentifier, Owners;
    if Authenticated(source, d) {
      assert forall i :: 0 <= i < |d.strategies| ==> d.strategies[i] in d.strategies;
      assert |d.strategies| == 1 && d.strategies[0] == Secrets ==> d.strategies == [Secrets];
    }
    assert NoAuth in d.strategies || forall i :: 0 <= i < |d.strategies| ==> d.strategies[i] != NoAuth;
    assert d.strategies == [NoAuth] ==> d.strategies[0] == NoAuth;
    NoAuthHasAnyOwner();
  }

  lemma NoAuthHasAnyOwner()
    ensures NoOwner in Owners(NoAuth) && NoStore in Stores(NoOwner)
  {
  }

  /** Soundness of a profile, policy by policy. */
  lemma ProfileSoundExactlyWhen(source: SkillSource, profile: Profile)
    ensures ProfileSound(source, profile) <==>
      match profile
      case Profile(NoProfile, NoSource, None, None) => source.profileSelectors == []
      case Profile(Selectable, RuntimeNamed, None, None) => source.profileSelectors == []
      case Profile(Selectable, SchemaSelector, Some(selector), None) =>
        SafeIdentifier(selector) && exists i :: 0 <= i < |source.profileSelectors| && source.profileSelectors[i] == selector
      case Profile(Fixed, FixedBinding, None, Some(fixedAlias)) => SafeIdentifier(fixedAlias) && source.profileSelectors == []
      case Profile(Implicit, CliActiveIdentity, None, None) => source.profileSelectors == []
      case Profile(Implicit, SessionIdentity, None, None) => source.profileSelectors == []
      case _ => false
  {
    hide SafeIdentifier;
  }

  /** The characters of a safe identifier. */
  lemma IdentifierMeans(value: string)
    ensures SafeIdentifier(value) <==>
      && value != "" && |value| <= 256
      && forall i :: 0 <= i < |value| ==>
           || 65 <= value[i] as int <= 90 || 97 <= value[i] as int <= 122 || 48 <= value[i] as int <= 57
           || value[i] == '-' || value[i] == '_' || value[i] == '.'
  {
  }

  /** Soundness of an adapter group, role by role. */
  lemma GroupSoundExactlyWhen(group: AdapterGroup)
    ensures AdapterGroupSound(group) <==>
      && group.files != []
      && (forall i, j :: 0 <= i < j < |group.ownership| ==> group.ownership[i] != group.ownership[j])
      && match group.role
         case RuntimeEntrypoint => RemovablePlumbing in group.ownership && NotWrapper !in group.ownership
         case ProtocolImplementation => ProtocolAdapter in group.ownership && NotWrapper !in group.ownership
         case PolicyImplementation => PolicyAdapter in group.ownership && NotWrapper !in group.ownership
         case ArtifactBridge => ArtifactAdapter in group.ownership && NotWrapper !in group.ownership
         case Installer => group.ownership == [NotWrapper]
         case Verifier => group.ownership == [NotWrapper]
         case Test => group.ownership == [NotWrapper]
         case Support => group.ownership == [NotWrapper]
  {
  }

  // ----- Validation

  function Members<T>(s: seq<T>): set<T> {
    set x | x in s
  }

  /** A list has as many distinct members as places exactly when it repeats none. */
  lemma {:induction false} DistinctBySize<T>(s: seq<T>)
    ensures |Members(s)| <= |s|
    ensures |Members(s)| == |s| <==> Distinct(s)
  {
    if s != [] {
      var rest := s[1..];
      DistinctBySize(rest);
      assert s == [s[0]] + rest;
      assert Members(s) == {s[0]} + Members(rest);
      if s[0] in rest {
        assert Members(s) == Members(rest);
        var k :| 0 <= k < |rest| && rest[k] == s[0];
        assert s[0] == s[k + 1];
      } else {
        assert |Members(s)| == 1 + |Members(rest)|;
        assert Distinct(s) <==> Distinct(rest) by {
          DistinctFront(s);
        }
      }
    } else {
      assert Members(s) == {};
    }
  }

  lemma DistinctFront<T>(s: seq<T>)
    requires s != [] && s[0] !in s[1..]
    ensures Distinct(s) <==> Distinct(s[1..])
  {
    if Distinct(s[1..]) {
      forall i, j | 0 <= i < j < |s|
        ensures s[i] != s[j]
      {
        assert s[j] == s[1..][j - 1];
        if i > 0 {
          assert s[i] == s[1..][i - 1];
        }
      }
    }
    if Distinct(s) {
      forall i, j | 0 <= i < j < |s[1..]|
        ensures s[1..][i] != s[1..][j]
      {
        assert s[1..][i] == s[i + 1] && s[1..][j] == s[j + 1];
      }
    }
  }

  method ValidateIdentifier(value: string) returns (errors: nat)
    ensures errors == 0 <==> SafeIdentifier(value)
  {
    errors := 0;
    if value == "" || |value| > MAX_IDENTIFIER_BYTES {
      return 1;
    }
    for i := 0 to |value|
      invariant forall k :: 0 <= k < i ==>
        'a' <= value[k] <= 'z' || 'A' <= value[k] <= 'Z' || '0' <= value[k] <= '9' || value[k] in "-_."
    {
      var c := value[i];
      if !('a' <= c <= 'z' || 'A' <= c <= 'Z' || '0' <= c <= '9' || c in "-_.") {
        return 1;
      }
    }
  }

  method ValidateProfile(source: SkillSource, profile: Profile) returns (errors: nat)
    ensures errors == 0 <==> ProfileSound(source, profile)
  {
    hide SafeIdentifier;
    errors := 0;
    if profile.selector.Some? {
      errors := ValidateIdentifier(profile.selector.value);
    }
    if profile.fixedAlias.Some? {
      var more := ValidateIdentifier(profile.fixedAlias.value);
      errors := errors + more;
    }
    match profile.policy {
      case NoProfile =>
        if profile.source != NoSource || profile.selector.Some? || profile.fixedAlias.Some? {
          errors := errors + 1;
        }
      case Selectable =>
        if profile.source !in {SchemaSelector, RuntimeNamed} || profile.fixedAlias.Some? {
          errors := errors + 1;
        }
        if profile.source == SchemaSelector {
          if profile.selector.None? || profile.selector.value !in source.profileSelectors {
            errors := errors + 1;
          }
        } else if profile.selector.Some? {
          errors := errors + 1;
        }
      case Fixed =>
        if profile.source != FixedBinding || profile.selector.Some? || profile.fixedAlias.None? {
          errors := errors + 1;
        }
      case Implicit =>
        if profile.source !in {CliActiveIdentity, SessionIdentity} || profile.selector.Some? || profile.fixedAlias.Some? {
          errors := errors + 1;
        }
    }
    if !(source.profileSelectors == [] || (profile.policy == Selectable && profile.source == SchemaSelector)) {
      errors := errors + 1;
    }
  }

  /** The checks of the authentication fields among themselves and against the source. */
  method ValidateAuthentication(source: SkillSource, d: Decision) returns (errors: nat)
    ensures errors == 0 <==>
      && d.strategies != [] && Distinct(d.strategies)
      && (NoAuth in d.strategies ==> |d.strategies| == 1)
      && (d.requirement.NotRequired? <==> NoAuth in d.strategies)
      && (source.requiredEnvNames != [] ==> Secrets in d.strategies)
      && !(source.authDeclared && NoAuth in d.strategies)
      && (d.provider.None? <==> NoAuth in d.strategies)
      && (d.provider.Some? ==> SafeIdentifier(d.provider.value))
  {
    hide SafeIdentifier, Distinct;
    errors := 0;
    if d.strategies == [] {
      errors := errors + 1;
    }
    DistinctBySize(d.strategies);
    if |Members(d.strategies)| != |d.strategies| {
      errors := errors + 1;
    }
    var hasNone := NoAuth in d.strategies;
    if hasNone && |d.strategies| != 1 {
      errors := errors + 1;
    }
    if d.requirement.NotRequired? != hasNone {
      errors := errors + 1;
    }
    if source.requiredEnvNames != [] && Secrets !in d.strategies {
      errors := errors + 1;
    }
    if source.authDeclared && hasNone {
      errors := errors + 1;
    }
    if d.provider.Some? {
      var more := ValidateIdentifier(d.provider.value);
      errors := errors + more;
    } else if !hasNone {
      errors := errors + 1;
    }
    if hasNone && d.provider.Some? {
      errors := errors + 1;
    }
  }

  /** The checks of the session, the setup path and the identity check. */
  method ValidateSession(d: Decision) returns (errors: nat)
    ensures errors == 0 <==>
      && (d.session == Session(NoOwner, NoStore) <==> NoAuth in d.strategies)
      && (d.setup.NoSetup? <==> NoAuth in d.strategies)
      && (d.verification.NoVerification? <==> NoAuth in d.strategies)
      && d.session.store in Stores(d.session.owner)
      && (forall strategy :: strategy in d.strategies ==> d.session.owner in Owners(strategy))
      && (Secrets in d.strategies && |d.strategies| == 1 ==> d.session.owner.Runtime?)
  {
    errors := 0;
    var hasNone, owner := NoAuth in d.strategies, d.session.owner;
    var noSession := d.session == Session(NoOwner, NoStore);
    if hasNone != noSession {
      errors := errors + 1;
    }
    if d.setup.NoSetup? != hasNone {
      errors := errors + 1;
    }
    if d.verification.NoVerification? != hasNone {
      errors := errors + 1;
    }
    var validPair := match (d.session.owner, d.session.store)
      case (NoOwner, NoStore) => true
      case (Runtime, ScopedSecretStore) => true
      case (Cli, ScopedCliDirectory) => true
      case (Cli, CliOwnedStore) => true
      case (BrowserController, BrowserProfileStore) => true
      case (OperatingSystem, OsPermissionStore) => true
      case (DelegatedExecutor, EphemeralGrant) => true
      case (LegacyProtocolWrapper, ScopedSkillCache) => true
      case (OfficialSdk, ScopedSecretStore) => true
      case _ => false;
    if !validPair {
      errors := errors + 1;
    }
    if CliProfile in d.strategies && owner != Cli {
      errors := errors + 1;
    }
    if Secrets in d.strategies && |d.strategies| == 1 && owner != Runtime {
      errors := errors + 1;
    }
    if OAuthSession in d.strategies && owner !in {Cli, LegacyProtocolWrapper, OfficialSdk} {
      errors := errors + 1;
    }
    if BrowserProfile in d.strategies && owner != BrowserController {
      errors := errors + 1;
    }
    if NativePermission in d.strategies && owner != OperatingSystem {
      errors := errors + 1;
    }
    if DelegatedCredential in d.strategies && owner !in {BrowserController, DelegatedExecutor} {
      errors := errors + 1;
    }
  }

  /** The single checks hold together exactly of the two kinds of sound decision. */
  lemma ChecksMeanSound(source: SkillSource, d: Decision)
    requires d.strategies != [] && Distinct(d.strategies)
    requires d.session.store in Stores(d.session.owner)
    ensures Unauthenticated(source, d) || Authenticated(source, d) <==>
      && (NoAuth in d.strategies ==> |d.strategies| == 1)
      && (d.requirement.NotRequired? <==> NoAuth in d.strategies)
      && (source.requiredEnvNames != [] ==> Secrets in d.strategies)
      && !(source.authDeclared && NoAuth in d.strategies)
      && (d.provider.None? <==> NoAuth in d.strategies)
      && (d.provider.Some? ==> SafeIdentifier(d.provider.value))
      && (d.session == Session(NoOwner, NoStore) <==> NoAuth in d.strategies)
      && (d.setup.NoSetup? <==> NoAuth in d.strategies)
      && (d.verification.NoVerification? <==> NoAuth in d.strategies)
      && (forall strategy :: strategy in d.strategies ==> d.session.owner in Owners(strategy))
      && (Secrets in d.strategies && |d.strategies| == 1 ==> d.session.owner.Runtime?)
  {
    hide SafeIdentifier, Distinct;
    assert NoAuth in d.strategies && |d.strategies| == 1 ==> d.strategies == [NoAuth];
    assert Secrets in d.strategies && |d.strategies| == 1 ==> d.strategies == [Secrets];
  }

  method ValidateSkillGroup(source: SkillSource, d: Decision) returns (errors: nat)
    ensures errors == 0 <==> DecisionSound(source, d)
  {
    hide SafeIdentifier, ProfileSound, Distinct, Owners;
    var a := ValidateAuthentication(source, d);
    var b := ValidateProfile(source, d.profile);
    var c := ValidateSession(d);
    errors := a + b + c;
    SoundHasStrategies(source, d);
    if d.strategies != [] && Distinct(d.strategies) && d.session.store in Stores(d.session.owner) {
      ChecksMeanSound(source, d);
    }
  }

  lemma SoundHasStrategies(source: SkillSource, d: Decision)
    ensures DecisionSound(source, d) ==>
      d.strategies != [] && Distinct(d.strategies) && d.session.store in Stores(d.session.owner)
  {
  }

  method ValidateAdapterGroup(group: AdapterGroup) returns (errors: nat)
    ensures errors == 0 <==> AdapterGroupSound(group)
  {
    errors := 0;
    if group.files == [] {
      errors := errors + 1;
    }
    if group.ownership == [] {
      errors := errors + 1;
    }
    DistinctBySize(group.ownership);
    if |Members(group.ownership)| != |group.ownership| {
      errors := errors + 1;
    }
    if NotWrapper in group.ownership && |group.ownership| != 1 {
      errors := errors + 1;
    }
    var nonWrapperRole := group.role in {Installer, Verifier, Test, Support};
    if nonWrapperRole != (NotWrapper in group.ownership) {
      errors := errors + 1;
    }
    var required := RequiredOwnership(group.role);
    if required.Some? && required.value !in group.ownership {
      errors := errors + 1;
    }
  }
}
