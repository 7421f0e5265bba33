/**
 * The custom user manager: `create_user` and `create_superuser` of
 * `AuthUserManager` over a table of `AuthUser` rows keyed by e-mail, the
 * model's `USERNAME_FIELD`. The password hasher is a parameter.
 */
module Users {
  import opened Wrappers
  import opened Text

  /**
   * What `set_password` leaves in the password column: the hasher's digest
   * of the given password, or the unusable marker when the password is
   * `None`.
   */
  datatype Credential = Unusable | Digest(value: string)

  /** An `AuthUser` row. `is_superuser` comes from `PermissionsMixin`. */
  datatype User = User(
    email: string,
    name: string,
    credential: Credential,
    isActive: bool,
    isStaff: bool,
    isSuperuser: bool
  )

  /**
   * The keyword arguments `create_user` passes on to the model constructor;
   * a field left `None` takes its column default.
   */
  datatype ExtraFields = ExtraFields(
    name: Option<string>,
    isActive: Option<bool>,
    isStaff: Option<bool>,
    isSuperuser: Option<bool>
  )

  const NoExtras := ExtraFields(None, None, None, None)

  /** The `AuthUser` table, keyed by its unique e-mail column. */
  type UserStore = map<string, User>

  /** Every row is filed under its own e-mail. */
  predicate WellFormed(store: UserStore) {
    forall e :: e in store ==> store[e].email == e
  }

  /** `ValueError("Email field is required!")`, and the unique-constraint violation. */
  datatype UserError = EmailRequired | DuplicateEmail(email: string)

  /** The successful outcome of a create: the new table and the saved row. */
  datatype Created = Created(store: UserStore, user: User)

  /**
   * Django's `BaseUserManager.normalize_email`: strip the address, cut it at
   * its last `@` and lower-case the domain part only. An address without an
   * `@` is returned as it was given, unstripped.
   */
  function NormalizeEmail(email: string): (r: string)
    ensures '@' !in Strip(email) ==> r == email
    ensures '@' in Strip(email) ==>
      exists local, domain :: CutAtLastAt(Strip(email), local, domain) && r == local + ['@'] + Lower(domain)
  {
    var t := Strip(email);
    match LastIndexOf(t, '@')
    case None => email
    case Some(i) =>
      CutAtLastIndex(t, i);
      t[..i] + ['@'] + Lower(t[i + 1..])
  }

  /** `local` and `domain` are the two halves of `rsplit('@', 1)` on `t`. */
  predicate CutAtLastAt(t: string, local: string, domain: string) {
    t == local + ['@'] + domain && '@' !in domain
  }

  lemma CutAtLastIndex(t: string, i: nat)
    requires LastIndexOf(t, '@') == Some(i)
    ensures CutAtLastAt(t, t[..i], t[i + 1..])
  {
    assert t == t[..i] + ['@'] + t[i + 1..];
  }

  /** The last `@` of a string is the one with no other `@` after it. */
  lemma LastIndexOfAt(s: string, c: char, i: nat)
    requires i < |s| && s[i] == c && c !in s[i + 1..]
    ensures LastIndexOf(s, c) == Some(i)
  {
    var j := LastIndexOf(s, c).value;
    assert forall k :: i < k < |s| ==> s[k] != c by {
      forall k | i < k < |s|
        ensures s[k] != c
      {
        assert s[k] == s[i + 1..][k - i - 1];
      }
    }
    assert forall k :: j < k < |s| ==> s[k] != c by {
      forall k | j < k < |s|
        ensures s[k] != c
      {
        assert s[k] == s[j + 1..][k - j - 1];
      }
    }
  }

  /** Lower-casing never produces an `@` that was not there. */
  lemma LowerKeepsNoAt(s: string)
    requires '@' !in s
    ensures '@' !in Lower(s)
  {
    var r := Lower(s);
    forall k | 0 <= k < |r|
      ensures r[k] != '@'
    {
      assert r[k] == LowerChar(s[k]);
    }
  }

  /**
   * A stripped address cut at its last `@` normalises to the same local
   * part followed by the lower-cased domain.
   */
  lemma NormalizeParts(email: string, local: string, domain: string)
    requires email == local + ['@'] + domain
    requires '@' !in domain
    requires Strip(email) == email
    ensures NormalizeEmail(email) == local + ['@'] + Lower(domain)
  {
    assert email[|local|] == '@';
    assert email[|local| + 1..] == domain;
    assert email[..|local|] == local;
    LastIndexOfAt(email, '@', |local|);
  }

  /** Lower-casing the domain of a stripped address leaves it stripped. */
  lemma LowerDomainTrimmed(t: string, local: string, domain: string)
    requires t == local + ['@'] + domain
    requires |t| > 0 ==> !IsSpace(t[0]) && !IsSpace(t[|t| - 1])
    ensures Strip(local + ['@'] + Lower(domain)) == local + ['@'] + Lower(domain)
  {
    var r := local + ['@'] + Lower(domain);
    if |local| > 0 {
      assert r[0] == t[0];
    }
    if |domain| > 0 {
      assert r[|r| - 1] == LowerChar(t[|t| - 1]);
    }
    StripKeepsTrimmed(r);
  }

  /** Normalising a normalised address changes nothing. */
  lemma NormalizeIdempotent(email: string)
    ensures NormalizeEmail(NormalizeEmail(email)) == NormalizeEmail(email)
  {
    var t := Strip(email);
    if '@' in t {
      var i := LastIndexOf(t, '@').value;
      var local, domain := t[..i], t[i + 1..];
      CutAtLastIndex(t, i);
      var low := Lower(domain);
      assert NormalizeEmail(email) == local + ['@'] + low;
      LowerDomainTrimmed(t, local, domain);
      LowerKeepsNoAt(domain);
      NormalizeParts(local + ['@'] + low, local, low);
      LowerKeepsLower(low);
    }
  }

  /**
   * Two addresses that differ only in the case of their domains normalise
   * to the same address: the domain is compared case-insensitively.
   */
  lemma NormalizeIgnoresDomainCase(a: string, b: string, local: string, da: string, db: string)
    requires a == local + ['@'] + da && b == local + ['@'] + db
    requires '@' !in da && '@' !in db
    requires Strip(a) == a && Strip(b) == b
    requires Lower(da) == Lower(db)
    ensures NormalizeEmail(a) == NormalizeEmail(b)
  {
    NormalizeParts(a, local, da);
    NormalizeParts(b, local, db);
  }

  /**
   * The address in the user-model test, `test@DOMAIN.COM`, is stored as `test@domain.com`.
   * The literals are parameters pinned by `requires`: written inline they would be unfolded at every use, which makes the proof far more expensive.
   */
  lemma NormalizeTestAddress(email: string, local: string, domain: string, low: string)
    requires local == "test" && domain == "DOMAIN.COM" && low == "domain.com"
    requires email == local + ['@'] + domain
    ensures NormalizeEmail(email) == local + ['@'] + low
  {
    assert email[0] == 't' && email[|email| - 1] == 'M';
    StripKeepsTrimmed(email);
    NormalizeParts(email, local, domain);
    LowerTestDomain(domain, low);
  }

  /** Lower-casing `DOMAIN.COM` gives `domain.com`. */
  lemma LowerTestDomain(domain: string, low: string)
    requires domain == "DOMAIN.COM" && low == "domain.com"
    ensures Lower(domain) == low
  {
  }

  /**
   * Django's `check_password`: a candidate is accepted exactly when there is
   * one and its digest is the stored one; an unusable credential accepts
   * nothing.
   */
  predicate CheckPassword(hash: string -> string, credential: Credential, candidate: Option<string>): (ok: bool)
    ensures candidate.None? ==> !ok
    ensures credential.Unusable? ==> !ok
    ensures candidate.Some? && credential.Digest? ==> (ok <==> hash(candidate.value) == credential.value)
  {
    candidate.Some? && credential.Digest? && hash(candidate.value) == credential.value
  }

  /** `set_password`: the digest of the password, or the unusable marker for `None`. */
  function SetPassword(hash: string -> string, password: Option<string>): (c: Credential)
    ensures password.None? <==> c.Unusable?
    ensures forall candidate :: CheckPassword(hash, c, candidate) <==>
      candidate.Some? && password.Some? && hash(candidate.value) == hash(password.value)
  {
    match password
    case None => Unusable
    case Some(p) => Digest(hash(p))
  }

  /** The table after an attempted create: a failed create adds no row. */
  function StoreAfter(store: UserStore, r: Result<Created, UserError>): UserStore {
    if r.Success? then r.value.store else store
  }

  /**
   * `create_user(email, password, **extra_field)`: a missing or empty
   * address is refused; otherwise the normalised address must be new, and
   * the row saved under it carries the given extra fields, the column
   * defaults for the others, and the password's credential.
   */
  function CreateUser(
    store: UserStore,
    email: Option<string>,
    password: Option<string>,
    extra: ExtraFields,
    hash: string -> string
  ): (r: Result<Created, UserError>)
    ensures email.None? || email == Some("") ==> r == Failure(EmailRequired)
    ensures email.Some? && email.value != "" && NormalizeEmail(email.value) in store ==>
      r == Failure(DuplicateEmail(NormalizeEmail(email.value)))
    ensures r.Success? <==>
      email.Some? && email.value != "" && NormalizeEmail(email.value) !in store
    ensures r.Success? ==>
      && r.value.user.email == NormalizeEmail(email.value)
      && r.value.store == store[r.value.user.email := r.value.user]
    ensures r.Success? ==>
      && (extra.name.Some? ==> r.value.user.name == extra.name.value)
      && (extra.isActive.Some? ==> r.value.user.isActive == extra.isActive.value)
      && (extra.isStaff.Some? ==> r.value.user.isStaff == extra.isStaff.value)
      && (extra.isSuperuser.Some? ==> r.value.user.isSuperuser == extra.isSuperuser.value)
    ensures r.Success? ==>
      && (extra.name.None? ==> r.value.user.name == "")
      && (extra.isActive.None? ==> r.value.user.isActive)
      && (extra.isStaff.None? ==> !r.value.user.isStaff)
      && (extra.isSuperuser.None? ==> !r.value.user.isSuperuser)
    ensures r.Success? ==>
      forall candidate :: CheckPassword(hash, r.value.user.credential, candidate) <==>
        candidate.Some? && password.Some? && hash(candidate.value) == hash(password.value)
  {
    if email.None? || email.value == "" then Failure(EmailRequired)
    else
      var address := NormalizeEmail(email.value);
      if address in store then Failure(DuplicateEmail(address))
      else
        var user := User(
          address,
          extra.name.GetOr(""),
          SetPassword(hash, password),
          extra.isActive.GetOr(true),
          extra.isStaff.GetOr(false),
          extra.isSuperuser.GetOr(false));
        Success(Created(store[address := user], user))
  }

  /**
   * `create_superuser(email, password)`: `create_user` with no extra
   * fields, then both the staff and the superuser flag raised.
   */
  function CreateSuperuser(
    store: UserStore,
    email: Option<string>,
    password: Option<string>,
    hash: string -> string
  ): (r: Result<Created, UserError>)
    ensures r.Failure? <==> CreateUser(store, email, password, NoExtras, hash).Failure?
    ensures r.Failure? ==> r.error == CreateUser(store, email, password, NoExtras, hash).error
    ensures r.Success? ==> r.value.user.isStaff && r.value.user.isSuperuser
    ensures r.Success? ==>
      && CreateUser(store, email, password, NoExtras, hash).Success?
      && r.value.user == CreateUser(store, email, password, NoExtras, hash).value.user.(isStaff := true, isSuperuser := true)
      && r.value.store == store[r.value.user.email := r.value.user]
  {
    var c :- CreateUser(store, email, password, NoExtras, hash);
    var user := c.user.(isStaff := true, isSuperuser := true);
    Success(Created(c.store[user.email := user], user))
  }

  /** A missing or empty address is refused and the table keeps its rows. */
  lemma CreateUserWithoutEmail(
    store: UserStore, email: Option<string>, password: Option<string>, extra: ExtraFields, hash: string -> string)
    requires email.None? || email == Some("")
    ensures CreateUser(store, email, password, extra, hash) == Failure(EmailRequired)
    ensures CreateSuperuser(store, email, password, hash) == Failure(EmailRequired)
    ensures StoreAfter(store, CreateUser(store, email, password, extra, hash)) == store
  {
  }

  /**
   * A second account under an address that normalises to a taken one is
   * refused, whatever the case of its domain, and adds no row.
   */
  lemma CreateUserDuplicate(
    store: UserStore, email: string, password: Option<string>, extra: ExtraFields, hash: string -> string)
    requires email != "" && NormalizeEmail(email) in store
    ensures CreateUser(store, Some(email), password, extra, hash).Failure?
    ensures CreateSuperuser(store, Some(email), password, hash).Failure?
    ensures StoreAfter(store, CreateUser(store, Some(email), password, extra, hash)) == store
  {
  }

  /** Filing a row under a new address of its own keeps the table well formed and grows it by one. */
  lemma InsertFreshRow(store: UserStore, user: User)
    requires WellFormed(store) && user.email !in store
    ensures var after := store[user.email := user];
      && WellFormed(after)
      && |after| == |store| + 1
      && store.Keys <= after.Keys
      && (forall e :: e in store ==> after[e] == store[e])
  {
  }

  /**
   * Creating a user keeps every row filed under its own address, adds
   * exactly one row and leaves the others as they were.
   */
  lemma CreateUserAddsOneRow(
    store: UserStore, email: Option<string>, password: Option<string>, extra: ExtraFields, hash: string -> string)
    requires WellFormed(store)
    requires CreateUser(store, email, password, extra, hash).Success?
    ensures var after := CreateUser(store, email, password, extra, hash).value.store;
      && WellFormed(after)
      && |after| == |store| + 1
      && store.Keys <= after.Keys
      && (forall e :: e in store ==> after[e] == store[e])
  {
    InsertFreshRow(store, CreateUser(store, email, password, extra, hash).value.user);
  }

  /** The same holds for `create_superuser`. */
  lemma CreateSuperuserAddsOneRow(
    store: UserStore, email: Option<string>, password: Option<string>, hash: string -> string)
    requires WellFormed(store)
    requires CreateSuperuser(store, email, password, hash).Success?
    ensures var after := CreateSuperuser(store, email, password, hash).value.store;
      && WellFormed(after)
      && |after| == |store| + 1
      && store.Keys <= after.Keys
      && (forall e :: e in store ==> after[e] == store[e])
  {
    InsertFreshRow(store, CreateSuperuser(store, email, password, hash).value.user);
  }

  /** In a well-formed table no two rows share an address. */
  lemma EmailsUnique(store: UserStore, a: string, b: string)
    requires WellFormed(store)
    requires a in store && b in store && store[a].email == store[b].email
    ensures a == b
  {
  }

  /**
   * With a hasher that tells passwords apart, the new account accepts its
   * own password and refuses every other; without a password it accepts
   * none.
   */
  lemma CreateThenCheckPassword(
    store: UserStore, email: Option<string>, password: Option<string>, extra: ExtraFields,
    hash: string -> string, candidate: string)
    requires forall x, y :: hash(x) == hash(y) ==> x == y
    requires CreateUser(store, email, password, extra, hash).Success?
    ensures var user := CreateUser(store, email, password, extra, hash).value.user;
      CheckPassword(hash, user.credential, Some(candidate)) <==> password == Some(candidate)
  {
  }

  /** With no extra fields, a new account is active, not staff and not a superuser. */
  lemma CreateUserDefaults(
    store: UserStore, email: Option<string>, password: Option<string>, hash: string -> string)
    requires CreateUser(store, email, password, NoExtras, hash).Success?
    ensures var user := CreateUser(store, email, password, NoExtras, hash).value.user;
      user.isActive && !user.isStaff && !user.isSuperuser && user.name == ""
  {
  }

  /**
   * A superuser is filed under the normalised address, is active, has both
   * flags raised, and accepts exactly the passwords with the given one's
   * digest.
   */
  lemma SuperuserAccount(
    store: UserStore, email: Option<string>, password: Option<string>, hash: string -> string)
    requires CreateSuperuser(store, email, password, hash).Success?
    ensures var user := CreateSuperuser(store, email, password, hash).value.user;
      && user.email == NormalizeEmail(email.value)
      && user.isActive && user.isStaff && user.isSuperuser
      && (forall candidate :: CheckPassword(hash, user.credential, candidate) <==>
            candidate.Some? && password.Some? && hash(candidate.value) == hash(password.value))
  {
  }

  /**
   * The addresses a well-formed table can hold after a create are already
   * normalised, so looking one up again by its normal form finds the row.
   */
  lemma CreatedAddressIsNormal(
    store: UserStore, email: Option<string>, password: Option<string>, extra: ExtraFields, hash: string -> string)
    requires CreateUser(store, email, password, extra, hash).Success?
    ensures var c := CreateUser(store, email, password, extra, hash).value;
      && NormalizeEmail(c.user.email) == c.user.email
      && NormalizeEmail(c.user.email) in c.store
  {
    NormalizeIdempotent(email.value);
  }
}
