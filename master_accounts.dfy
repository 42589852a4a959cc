/**
 * Validation of master keys. Each configured master account holds the SHA-512 digest of a
 * key and an optional validity window; a presented key (base64) is valid when some account
 * is valid at the current instant and holds the digest of the decoded key.
 *
 * Instants are DateTime tick counts. Base64 decoding, the digest and the parsing of the
 * configured ISO 8601 instants are parameters: `decode` answers None where
 * `Convert.FromBase64String` throws, and `parseInstant` where `DateTime.Parse` throws.
 */
module MasterAccounts {
  import opened Wrappers

  /** DateTime.MinValue and DateTime.MaxValue, in ticks. */
  const MinTicks: int := 0
  const MaxTicks: int := 3155378975999999999

  /** A master account as configured: base64 digest and optional ISO 8601 window bounds. */
  datatype MasterAccount = MasterAccount(keyHashBase64: string, notBeforeUtc: Option<string>, notAfterUtc: Option<string>)

  /** A master account after parsing. */
  datatype Account = Account(hash: seq<bv8>, notBefore: Option<int>, notAfter: Option<int>)

  /** Why parsing configuration or a presented key throws. */
  datatype ParseError = BadBase64 | BadInstant

  /**
   * The account's window contains `now` strictly; an absent lower bound stands for
   * DateTime.MinValue and an absent upper bound for DateTime.MaxValue.
   */
  predicate IsValidNow(a: Account, now: int)
    ensures MinTicks < now < MaxTicks ==>
      (IsValidNow(a, now) <==> (a.notBefore.None? || a.notBefore.value < now) && (a.notAfter.None? || now < a.notAfter.value))
  {
    a.notBefore.GetOr(MinTicks) < now && now < a.notAfter.GetOr(MaxTicks)
  }

  /** Both bounds are exclusive: at the very instant of either bound the account is not valid. */
  lemma WindowBoundsExclusive(a: Account, now: int)
    requires a.notBefore == Some(now) || a.notAfter == Some(now)
    ensures !IsValidNow(a, now)
  {
  }

  /** Some account in `accounts` is valid now and holds `digest`. */
  predicate AnyMatches(accounts: seq<Account>, digest: seq<bv8>, now: int)
    ensures AnyMatches(accounts, digest, now) ==> accounts != []
    ensures AnyMatches(accounts, digest, now) ==> exists a :: a in accounts && IsValidNow(a, now) && a.hash == digest
  {
    if accounts == [] then false
    else (IsValidNow(accounts[0], now) && accounts[0].hash == digest) || AnyMatches(accounts[1..], digest, now)
  }

  /** The scan accepts exactly when some account, valid now, holds the digest. */
  lemma {:induction false} AnyMatchesIff(accounts: seq<Account>, digest: seq<bv8>, now: int)
    ensures AnyMatches(accounts, digest, now) <==>
      exists i :: 0 <= i < |accounts| && IsValidNow(accounts[i], now) && accounts[i].hash == digest
  {
    if accounts != [] {
      AnyMatchesIff(accounts[1..], digest, now);
      if AnyMatches(accounts[1..], digest, now) {
        var i :| 0 <= i < |accounts[1..]| && IsValidNow(accounts[1..][i], now) && accounts[1..][i].hash == digest;
        assert accounts[i + 1] == accounts[1..][i];
      }
      forall i | 1 <= i < |accounts| && IsValidNow(accounts[i], now) && accounts[i].hash == digest
        ensures AnyMatches(accounts[1..], digest, now)
      {
        assert accounts[1..][i - 1] == accounts[i];
      }
    }
  }

  /** The order of the configured accounts does not matter. */
  lemma AnyMatchesOrderIndependent(accounts: seq<Account>, others: seq<Account>, digest: seq<bv8>, now: int)
    requires multiset(accounts) == multiset(others)
    ensures AnyMatches(accounts, digest, now) == AnyMatches(others, digest, now)
  {
    AnyMatchesIff(accounts, digest, now);
    AnyMatchesIff(others, digest, now);
    if AnyMatches(accounts, digest, now) {
      var i :| 0 <= i < |accounts| && IsValidNow(accounts[i], now) && accounts[i].hash == digest;
      assert accounts[i] in multiset(others);
      var j :| 0 <= j < |others| && others[j] == accounts[i];
    }
    if AnyMatches(others, digest, now) {
      var j :| 0 <= j < |others| && IsValidNow(others[j], now) && others[j].hash == digest;
      assert others[j] in multiset(accounts);
      var i :| 0 <= i < |accounts| && accounts[i] == others[j];
    }
  }

  /**
   * Check a presented key: decode it, hash it, and accept it when some account is valid now
   * and holds that digest. A key that is not base64 makes `Convert.FromBase64String` throw.
   */
  function IsValid(accounts: seq<Account>, keyBase64: string, decode: string -> Option<seq<bv8>>,
                   hash: seq<bv8> -> seq<bv8>, now: int): (r: Result<bool, ParseError>)
    ensures decode(keyBase64).None? <==> r == Failure(BadBase64)
    ensures r == Success(true) <==>
      decode(keyBase64).Some? &&
      exists i :: 0 <= i < |accounts| && IsValidNow(accounts[i], now) && accounts[i].hash == hash(decode(keyBase64).value)
    ensures decode(keyBase64).Some? ==> r.Success?
    ensures accounts == [] && decode(keyBase64).Some? ==> r == Success(false)
  {
    match decode(keyBase64)
    case None => Failure(BadBase64)
    case Some(bytes) =>
      var search := hash(bytes);
      AnyMatchesIff(accounts, search, now);
      Success(AnyMatches(accounts, search, now))
  }

  /** A key whose digest only matches accounts that are expired or not yet valid is rejected. */
  lemma OutOfWindowKeyRejected(accounts: seq<Account>, keyBase64: string, decode: string -> Option<seq<bv8>>,
                               hash: seq<bv8> -> seq<bv8>, now: int)
    requires decode(keyBase64).Some?
    requires forall i :: 0 <= i < |accounts| && accounts[i].hash == hash(decode(keyBase64).value) ==> !IsValidNow(accounts[i], now)
    ensures IsValid(accounts, keyBase64, decode, hash, now) == Success(false)
  {
  }

  /** Parse one configured account: digest first, then the lower bound, then the upper; an absent bound stays absent. */
  function ParseAccount(cfg: MasterAccount, decode: string -> Option<seq<bv8>>, parseInstant: string -> Option<int>): (r: Result<Account, ParseError>)
    ensures r.Success? <==>
      && decode(cfg.keyHashBase64).Some?
      && (cfg.notBeforeUtc.Some? ==> parseInstant(cfg.notBeforeUtc.value).Some?)
      && (cfg.notAfterUtc.Some? ==> parseInstant(cfg.notAfterUtc.value).Some?)
    ensures decode(cfg.keyHashBase64).None? ==> r == Failure(BadBase64)
    ensures r.Success? ==>
      && r.value.hash == decode(cfg.keyHashBase64).value
      && r.value.notBefore == (if cfg.notBeforeUtc.Some? then parseInstant(cfg.notBeforeUtc.value) else None)
      && r.value.notAfter == (if cfg.notAfterUtc.Some? then parseInstant(cfg.notAfterUtc.value) else None)
  {
    match decode(cfg.keyHashBase64)
    case None => Failure(BadBase64)
    case Some(bytes) =>
      if cfg.notBeforeUtc.Some? && parseInstant(cfg.notBeforeUtc.value).None? then Failure(BadInstant)
      else if cfg.notAfterUtc.Some? && parseInstant(cfg.notAfterUtc.value).None? then Failure(BadInstant)
      else
        var notBefore := if cfg.notBeforeUtc.Some? then parseInstant(cfg.notBeforeUtc.value) else None;
        var notAfter := if cfg.notAfterUtc.Some? then parseInstant(cfg.notAfterUtc.value) else None;
        Success(Account(bytes, notBefore, notAfter))
  }

  /** Parse every configured account in order; the first one that fails makes the whole parse fail. */
  function ParseAccounts(cfgs: seq<MasterAccount>, decode: string -> Option<seq<bv8>>, parseInstant: string -> Option<int>): (r: Result<seq<Account>, ParseError>)
    ensures r.Success? <==> forall i :: 0 <= i < |cfgs| ==> ParseAccount(cfgs[i], decode, parseInstant).Success?
    ensures r.Success? ==>
      |r.value| == |cfgs| && forall i :: 0 <= i < |cfgs| ==> r.value[i] == ParseAccount(cfgs[i], decode, parseInstant).value
  {
    if cfgs == [] then Success([])
    else
      match ParseAccount(cfgs[0], decode, parseInstant)
      case Failure(e) => Failure(e)
      case Success(a) =>
        match ParseAccounts(cfgs[1..], decode, parseInstant)
        case Failure(e) => Failure(e)
        case Success(rest) => Success([a] + rest)
  }
}
