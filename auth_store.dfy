/**
 * The lock-screen store of `src/stores/authStore.ts`.  The store keeps five
 * fields; its actions read and write the persisted configuration (modelled
 * as the `config` field: the values the configuration service keeps) and
 * consult a password hash function and an authenticator, which are
 * parameters here.  Each action is a method of `Store`; the state it leaves
 * is given by a function of the old state, and the lemmas below relate the
 * actions to one another.
 */
module AuthStore {
  import opened Wrappers

  datatype AuthMethod = Biometric | Password

  /** What the configuration service keeps. */
  datatype Config = Config(
    enabled: bool,
    credentialId: Option<string>,
    passwordHash: Option<string>,
    passwordSalt: Option<string>)

  /** The five fields of the store. */
  datatype Auth = Auth(
    isAuthEnabled: bool,
    isLocked: bool,
    isAuthenticated: bool,
    credentialId: Option<string>,
    authMethod: Option<AuthMethod>)

  /** `{ success, error? }`. */
  datatype Reply = Reply(success: bool, error: Option<string>)

  /** What the authenticator (Windows Hello or WebAuthn) reports. */
  datatype Verdict = Verified | Declined(message: string)

  /** What enrolling with the authenticator gives: the new credential id, or
      the message of the refusal. */
  datatype Enrolment = Enrolled(id: string) | Refused(message: string)

  /** The credential id the native Windows Hello path stores. */
  const NativeCredential := "native-windows-hello"

  const UsePasswordMessage := "请使用密码解锁"
  const NoCredentialMessage := "未找到凭证"
  const NoPasswordMessage := "未设置密码"
  const WrongPasswordMessage := "密码错误"

  const Initial := Auth(false, false, false, None, None)

  const Success := Reply(true, None)

  function Failure(message: string): (r: Reply)
    ensures !r.success && r.error == Some(message)
  {
    Reply(false, Some(message))
  }

  /** JavaScript truthiness of a `string | null`. */
  predicate Truthy(s: Option<string>) {
    s.Some? && s.value != ""
  }

  /** Neither a password nor a biometric credential alongside the other. */
  predicate Exclusive(c: Config) {
    c.passwordHash.None? || c.credentialId.None?
  }

  // ---- `init` ------------------------------------------------------------------

  function MethodOf(c: Config): (m: Option<AuthMethod>)
    ensures m == Some(Password) <==> Truthy(c.passwordHash)
    ensures m == Some(Biometric) <==> !Truthy(c.passwordHash) && Truthy(c.credentialId)
    ensures m == None <==> !Truthy(c.passwordHash) && !Truthy(c.credentialId)
  {
    if Truthy(c.passwordHash) then Some(Password)
    else if Truthy(c.credentialId) then Some(Biometric)
    else None
  }

  /** The state `init` sets from the configuration: enabled only when the flag
      is on and a hash or credential exists, locked exactly when enabled. */
  function AfterInit(c: Config): (a: Auth)
    ensures a.isAuthEnabled <==> c.enabled && (Truthy(c.credentialId) || Truthy(c.passwordHash))
    ensures a.isLocked == a.isAuthEnabled && a.isAuthenticated == !a.isAuthEnabled
    ensures a.credentialId == c.credentialId && a.authMethod == MethodOf(c)
    ensures a.isAuthEnabled ==> a.authMethod.Some?
  {
    var reallyEnabled := c.enabled && (Truthy(c.credentialId) || Truthy(c.passwordHash));
    Auth(reallyEnabled, reallyEnabled, !reallyEnabled, c.credentialId, MethodOf(c))
  }

  // ---- `enableAuth`, `setupPassword`, `disableAuth` ------------------------------

  /** The configuration `enableAuth` writes: the credential, no password. */
  function EnrolledConfig(id: string): (c: Config)
    ensures c.enabled && c.credentialId == Some(id) && Exclusive(c)
  {
    Config(true, Some(id), None, None)
  }

  function AfterEnable(a: Auth, id: string): (b: Auth)
    ensures b.isAuthEnabled && b.credentialId == Some(id) && b.authMethod == Some(Biometric)
    ensures b.isLocked == a.isLocked && b.isAuthenticated == a.isAuthenticated
  {
    a.(isAuthEnabled := true, credentialId := Some(id), authMethod := Some(Biometric))
  }

  /** The configuration `setupPassword` writes: the hash and salt, no
      credential. */
  function PasswordConfig(hash: string, salt: string): (c: Config)
    ensures c.enabled && c.passwordHash == Some(hash) && c.passwordSalt == Some(salt)
    ensures Exclusive(c)
  {
    Config(true, None, Some(hash), Some(salt))
  }

  function AfterSetupPassword(a: Auth): (b: Auth)
    ensures b.isAuthEnabled && b.authMethod == Some(Password) && b.credentialId == None
    ensures b.isLocked == a.isLocked && b.isAuthenticated == a.isAuthenticated
  {
    a.(isAuthEnabled := true, authMethod := Some(Password), credentialId := None)
  }

  /** The configuration `disableAuth` writes. */
  const DisabledConfig := Config(false, None, None, None)

  function AfterDisable(a: Auth): (b: Auth)
    ensures !b.isAuthEnabled && !b.isLocked && b.isAuthenticated
    ensures b.credentialId == None && b.authMethod == None
  {
    Auth(false, false, true, None, None)
  }

  // ---- `verifyPassword`, `unlock`, `lock`, `setLocked` ----------------------------

  function Unlocked(a: Auth): (b: Auth)
    ensures !b.isLocked && b.isAuthenticated
    ensures b.isAuthEnabled == a.isAuthEnabled && b.credentialId == a.credentialId
    ensures b.authMethod == a.authMethod
  {
    a.(isLocked := false, isAuthenticated := true)
  }

  /** The reply of `verifyPassword`: no saved hash or salt fails, otherwise
      the hash of the password under the saved salt must equal the saved hash. */
  function VerifyReply(c: Config, password: string, hash: (string, string) -> string): (r: Reply)
    ensures r.success <==> Truthy(c.passwordHash) && Truthy(c.passwordSalt)
                           && hash(password, c.passwordSalt.value) == c.passwordHash.value
    ensures !(Truthy(c.passwordHash) && Truthy(c.passwordSalt)) ==> r == Failure(NoPasswordMessage)
  {
    if !Truthy(c.passwordHash) || !Truthy(c.passwordSalt) then Failure(NoPasswordMessage)
    else if hash(password, c.passwordSalt.value) == c.passwordHash.value then Success
    else Failure(WrongPasswordMessage)
  }

  /** The reply of `unlock`: the password method and a missing credential are
      refused before the authenticator is asked. */
  function UnlockReply(a: Auth, verdict: Verdict): (r: Reply)
    ensures a.authMethod == Some(Password) ==> r == Failure(UsePasswordMessage)
    ensures a.authMethod != Some(Password) && !Truthy(a.credentialId) ==> r == Failure(NoCredentialMessage)
    ensures r.success <==> a.authMethod != Some(Password) && Truthy(a.credentialId) && verdict.Verified?
  {
    if a.authMethod == Some(Password) then Failure(UsePasswordMessage)
    else if !Truthy(a.credentialId) then Failure(NoCredentialMessage)
    else if verdict.Verified? then Success
    else Failure(verdict.message)
  }

  function AfterLock(a: Auth): (b: Auth)
    ensures b.isLocked <==> a.isLocked || a.isAuthEnabled
    ensures b == a.(isLocked := b.isLocked)
  {
    if a.isAuthEnabled then a.(isLocked := true) else a
  }

  // ---- The store -----------------------------------------------------------------

  class Store {
    var isAuthEnabled: bool
    var isLocked: bool
    var isAuthenticated: bool
    var credentialId: Option<string>
    var authMethod: Option<AuthMethod>
    /** The persisted configuration the actions read and write. */
    var config: Config

    function State(): Auth
      reads this
    {
      Auth(isAuthEnabled, isLocked, isAuthenticated, credentialId, authMethod)
    }

    constructor (config: Config)
      ensures State() == Initial && this.config == config
    {
      isAuthEnabled := false;
      isLocked := false;
      isAuthenticated := false;
      credentialId := None;
      authMethod := None;
      this.config := config;
    }

    method Init()
      modifies this
      ensures State() == AfterInit(config) && config == old(config)
    {
      var passwordHash := config.passwordHash;
      var enabled := config.enabled;
      var credId := config.credentialId;
      var chosen: Option<AuthMethod> := None;
      if Truthy(passwordHash) {
        chosen := Some(Password);
      } else if Truthy(credId) {
        chosen := Some(Biometric);
      }
      var isReallyEnabled := enabled && (Truthy(credId) || Truthy(passwordHash));
      isAuthEnabled := isReallyEnabled;
      credentialId := credId;
      authMethod := chosen;
      isLocked := isReallyEnabled;
      isAuthenticated := !isReallyEnabled;
    }

    method EnableAuth(enrolment: Enrolment) returns (r: Reply)
      modifies this
      ensures enrolment.Enrolled? ==> r == Success && State() == AfterEnable(old(State()), enrolment.id)
                                      && config == EnrolledConfig(enrolment.id)
      ensures enrolment.Refused? ==> r == Failure(enrolment.message) && State() == old(State())
                                     && config == old(config)
    {
      match enrolment
      case Refused(message) =>
        r := Failure(message);
      case Enrolled(id) =>
        isAuthEnabled := true;
        credentialId := Some(id);
        authMethod := Some(Biometric);
        config := config.(enabled := true, credentialId := Some(id));
        config := config.(passwordHash := None, passwordSalt := None);
        r := Success;
    }

    /** `salt` is the fresh salt `hashPassword` draws. */
    method SetupPassword(password: string, salt: string, hash: (string, string) -> string) returns (r: Reply)
      modifies this
      ensures r == Success
      ensures State() == AfterSetupPassword(old(State()))
      ensures config == PasswordConfig(hash(password, salt), salt)
    {
      var h := hash(password, salt);
      isAuthEnabled := true;
      authMethod := Some(Password);
      credentialId := None;
      config := config.(enabled := true, passwordHash := Some(h), passwordSalt := Some(salt));
      config := config.(credentialId := None);
      r := Success;
    }

    method VerifyPassword(password: string, hash: (string, string) -> string) returns (r: Reply)
      modifies this
      ensures r == VerifyReply(config, password, hash) && config == old(config)
      ensures State() == if r.success then Unlocked(old(State())) else old(State())
    {
      var savedHash := config.passwordHash;
      var savedSalt := config.passwordSalt;
      if !Truthy(savedHash) || !Truthy(savedSalt) {
        return Failure(NoPasswordMessage);
      }
      var h := hash(password, savedSalt.value);
      if h == savedHash.value {
        isLocked := false;
        isAuthenticated := true;
        r := Success;
      } else {
        r := Failure(WrongPasswordMessage);
      }
    }

    method DisableAuth()
      modifies this
      ensures State() == AfterDisable(old(State())) && config == DisabledConfig
    {
      isAuthEnabled := false;
      credentialId := None;
      authMethod := None;
      isLocked := false;
      isAuthenticated := true;
      config := config.(enabled := false, credentialId := None);
      config := config.(passwordHash := None, passwordSalt := None);
    }

    /** `verdict` is what the authenticator reports when it is asked. */
    method Unlock(verdict: Verdict) returns (r: Reply)
      modifies this
      ensures r == UnlockReply(old(State()), verdict) && config == old(config)
      ensures State() == if r.success then Unlocked(old(State())) else old(State())
    {
      if authMethod == Some(Password) {
        return Failure(UsePasswordMessage);
      }
      if !Truthy(credentialId) {
        return Failure(NoCredentialMessage);
      }
      match verdict
      case Verified =>
        isLocked := false;
        isAuthenticated := true;
        r := Success;
      case Declined(message) =>
        r := Failure(message);
    }

    method Lock()
      modifies this
      ensures State() == AfterLock(old(State())) && config == old(config)
    {
      if isAuthEnabled {
        isLocked := true;
      }
    }

    method SetLocked(locked: bool)
      modifies this
      ensures State() == old(State()).(isLocked := locked) && config == old(config)
    {
      isLocked := locked;
    }
  }

  // ---- How the actions fit together ----------------------------------------------

  /** On an exclusive configuration `init` never reports a password together
      with a credential. */
  lemma InitExclusive(c: Config)
    requires Exclusive(c)
    ensures AfterInit(c).authMethod == Some(Password) ==> AfterInit(c).credentialId == None
  {
  }

  /** After a password is set up, the next start locks the app behind it. */
  lemma InitAfterSetup(hash: string, salt: string)
    requires hash != ""
    ensures var a := AfterInit(PasswordConfig(hash, salt));
            a.isAuthEnabled && a.isLocked && !a.isAuthenticated && a.authMethod == Some(Password)
  {
  }

  /** After enrolment with a non-empty credential id, the next start locks the
      app behind the authenticator. */
  lemma InitAfterEnable(id: string)
    requires id != ""
    ensures var a := AfterInit(EnrolledConfig(id));
            a.isAuthEnabled && a.isLocked && a.authMethod == Some(Biometric) && a.credentialId == Some(id)
  {
  }

  /** After `disableAuth`, the next start is unlocked and authenticated. */
  lemma InitAfterDisable()
    ensures AfterInit(DisabledConfig) == AfterDisable(Initial)
  {
  }

  /** The password set up is the one `verifyPassword` accepts; another one is
      refused when the hash tells them apart. */
  lemma VerifyAfterSetup(password: string, other: string, salt: string, hash: (string, string) -> string)
    requires salt != "" && hash(password, salt) != ""
    ensures VerifyReply(PasswordConfig(hash(password, salt), salt), password, hash) == Success
    ensures hash(other, salt) != hash(password, salt) ==>
              VerifyReply(PasswordConfig(hash(password, salt), salt), other, hash) == Failure(WrongPasswordMessage)
  {
  }

  /** Once a password is set up, `unlock` refuses without asking the
      authenticator, whatever it would say. */
  lemma UnlockNeedsPassword(a: Auth, verdict: Verdict)
    ensures UnlockReply(AfterSetupPassword(a), verdict) == Failure(UsePasswordMessage)
  {
  }

  /** `lock` and then a successful unlock leave the store unlocked and
      authenticated, with its method and credential as before. */
  lemma LockThenUnlock(a: Auth)
    requires a.isAuthEnabled
    ensures AfterLock(a).isLocked
    ensures Unlocked(AfterLock(a)) == a.(isLocked := false, isAuthenticated := true)
  {
  }
}
