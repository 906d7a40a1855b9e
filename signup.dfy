/**
 * The sign-up flow shared by the ProMail and TrustMail websites. The two
 * sites differ only in the address domain, the accounts key, and the texts
 * of the welcome e-mails, so one model serves both, parameterised by the
 * provider.
 */
module Signup {
  import opened Wrappers
  import Text
  import opened Store

  datatype Provider = ProMail | TrustMail

  /** The suffix every address of the provider carries. */
  function Domain(p: Provider): (d: string)
    ensures |d| > 1 && d[0] == '@' && '@' !in d[1..]
  {
    match p
    case ProMail => "@promail.pro"
    case TrustMail => "@trustmail.com"
  }

  /** The store key of the provider's accounts dictionary. */
  function AccountsKey(p: Provider): (k: string)
    ensures k != GlobalAccountKey && k != GlobalMailboxKey && k != LegacyAccountsKey
  {
    match p
    case ProMail => ProMailAccountsKey
    case TrustMail => TrustMailAccountsKey
  }

  datatype Page = Home | SignUp | Success | Exists

  /** The sign-up form; `email` holds the username the user typed. */
  datatype Form = Form(email: string, password: string, confirmPassword: string)

  const EmptyForm: Form := Form("", "", "")

  const BlankUsername: string := "Please enter a username"
  const AtInUsername: string := "Username cannot contain @"
  const ShortUsername: string := "Username must be at least 3 characters"
  const ShortPassword: string := "Password must be at least 6 characters"
  const PasswordMismatch: string := "Passwords do not match"
  const UsernameTaken: string := "This username is already registered"

  // ---------------------------------------------------------------------------
  // Validation

  /** A form every check accepts. */
  predicate Acceptable(f: Form) {
    && !Text.IsBlank(f.email)
    && '@' !in f.email
    && |f.email| >= 3
    && |f.password| >= 6
    && f.password == f.confirmPassword
  }

  /** The checks in order; the first that fails gives the message. */
  function Validate(f: Form): (err: Option<string>)
    ensures err == None <==> Acceptable(f)
  {
    if Text.IsBlank(f.email) then Some(BlankUsername)
    else if '@' in f.email then Some(AtInUsername)
    else if |f.email| < 3 then Some(ShortUsername)
    else if f.password == "" || |f.password| < 6 then Some(ShortPassword)
    else if f.password != f.confirmPassword then Some(PasswordMismatch)
    else None
  }

  /**
   * Each message appears exactly when the checks before it pass and its own
   * fails: the length check counts the untrimmed username, and an empty
   * password is reported as too short.
   */
  lemma ValidateOrder(f: Form)
    ensures Validate(f) == Some(BlankUsername) <==> Text.IsBlank(f.email)
    ensures Validate(f) == Some(AtInUsername) <==> !Text.IsBlank(f.email) && '@' in f.email
    ensures Validate(f) == Some(ShortUsername) <==> !Text.IsBlank(f.email) && '@' !in f.email && |f.email| < 3
    ensures Validate(f) == Some(ShortPassword) <==>
      !Text.IsBlank(f.email) && '@' !in f.email && |f.email| >= 3 && |f.password| < 6
    ensures Validate(f) == Some(PasswordMismatch) <==>
      !Text.IsBlank(f.email) && '@' !in f.email && |f.email| >= 3 && |f.password| >= 6 && f.password != f.confirmPassword
  {
  }

  // ---------------------------------------------------------------------------
  // Addresses

  /** The username followed by the provider's domain. */
  function Address(p: Provider, username: string): string {
    username + Domain(p)
  }

  /** An accepted username is recovered from its address as the part before the first `@`. */
  lemma UsernameRoundTrip(p: Provider, username: string)
    requires '@' !in username
    ensures Text.PrefixBefore(Address(p, username), '@') == username
  {
    assert Address(p, username) == username + ['@'] + Domain(p)[1..];
    Text.PrefixBeforeSeparator(username, '@', Domain(p)[1..]);
  }

  /**
   * Distinct usernames give distinct addresses, and no address of one
   * provider is an address of the other.
   */
  lemma AddressesDistinct(p: Provider, q: Provider, u: string, v: string)
    requires '@' !in u && '@' !in v
    requires Address(p, u) == Address(q, v)
    ensures p == q && u == v
  {
    UsernameRoundTrip(p, u);
    UsernameRoundTrip(q, v);
    var a := Address(p, u);
    assert a[|a| - 1] == Domain(p)[|Domain(p)| - 1];
    assert a[|a| - 1] == Domain(q)[|Domain(q)| - 1];
  }

  // ---------------------------------------------------------------------------
  // The stored effects of a sign-up

  /** Stand-in for the Markdown bodies and attachment texts of the welcome e-mails. */
  const WelcomeText: string := "(welcome text)"

  /** The job-offer attachment. */
  function JobDescription(p: Provider): Attachment {
    match p
    case ProMail => Attachment("job-desc-1", "Job_Description_Full_Stack_Developer.txt", 5200, "application/text", WelcomeText)
    case TrustMail => Attachment("job-desc-1", "Job_Description_Senior_Engineer.txt", 4500, "application/text", WelcomeText)
  }

  /** The two e-mails a new mailbox starts with: a welcome now and a job offer an hour before. */
  function WelcomeEmails(p: Provider, now: int): seq<Email> {
    match p
    case ProMail => [
      Email("welcome-1", "ProMail Team", "support@promail.pro", "Welcome to ProMail!", WelcomeText,
            now, false, false, false, false, []),
      Email("job-offer-1", "HR Department", "hr@promail.pro", "Career Opportunity - Full Stack Developer (Remote)", WelcomeText,
            now - 3600000, false, false, false, false, [JobDescription(p)])]
    case TrustMail => [
      Email("welcome-1", "TrustMail Team", "support@trustmail.com", "Welcome to TrustMail!", WelcomeText,
            now, false, false, false, false, []),
      Email("job-offer-1", "Recruiting Team", "careers@trustmail.com", "Exciting Job Opportunity - Senior Software Engineer", WelcomeText,
            now - 3600000, false, false, false, false, [JobDescription(p)])]
  }

  /** The new mailbox: two e-mails with distinct ids, none read, starred, archived or deleted, the welcome newer. */
  lemma WelcomeEmailsFresh(p: Provider, now: int)
    ensures var es := WelcomeEmails(p, now);
      && |es| == 2
      && es[0].id == "welcome-1" && es[1].id == "job-offer-1"
      && es[0].timestamp == now && es[1].timestamp == now - 3600000
      && forall i :: 0 <= i < |es| ==> !es[i].read && !es[i].starred && !es[i].archived && !es[i].deleted
  {
    match p
    case ProMail =>
    case TrustMail =>
  }

  /** `localStorage.getItem('global_mail_account') !== null`. */
  predicate HasCreatedAccount(items: map<string, Value>) {
    GlobalAccountKey in items
  }

  /** `localStorage.getItem('global_mail_account') || ''`. */
  function CreatedEmail(items: map<string, Value>): (address: string)
    ensures !HasCreatedAccount(items) ==> address == ""
  {
    TextAt(items, GlobalAccountKey).GetOr("")
  }

  datatype SignUpResult = Rejected(message: string) | Registered(address: string, items: map<string, Value>)

  /**
   * Submitting the sign-up form against the store `items`: rejected with
   * the first validation message or the duplicate message, or registered
   * with the new store.
   */
  function Register(p: Provider, f: Form, items: map<string, Value>, createdAt: string, now: int): (r: SignUpResult)
    ensures r.Registered? ==> r.address == Address(p, f.email)
  {
    if Validate(f).Some? then Rejected(Validate(f).value)
    else
      var address := Address(p, f.email);
      var accounts := AccountsAt(items, AccountsKey(p));
      if address in accounts then Rejected(UsernameTaken)
      else
        var accounts' := accounts[address := Account(address, f.password, createdAt)];
        Registered(address,
          items[AccountsKey(p) := Accounts(accounts')]
               [GlobalAccountKey := Text(address)]
               [GlobalMailboxKey := Mailbox(WelcomeEmails(p, now))])
  }

  /**
   * A sign-up is rejected exactly when validation fails, with its message,
   * or when the address is already a key of the provider's dictionary,
   * with the duplicate message; a rejection leaves the store as it was.
   */
  lemma RegisterRejects(p: Provider, f: Form, items: map<string, Value>, createdAt: string, now: int)
    ensures var r := Register(p, f, items, createdAt, now);
      && (r.Rejected? <==> !Acceptable(f) || Address(p, f.email) in AccountsAt(items, AccountsKey(p)))
      && (!Acceptable(f) ==> r == Rejected(Validate(f).value))
      && (Acceptable(f) && Address(p, f.email) in AccountsAt(items, AccountsKey(p)) ==> r == Rejected(UsernameTaken))
  {
  }

  /**
   * A registration adds exactly one account, under the new address and
   * with the submitted password; every other account of this provider,
   * and every account of the other dictionaries, stays as it was.
   */
  lemma RegisterInsertsOneAccount(p: Provider, f: Form, items: map<string, Value>, createdAt: string, now: int)
    requires Register(p, f, items, createdAt, now).Registered?
    ensures var r := Register(p, f, items, createdAt, now);
      var before := AccountsAt(items, AccountsKey(p));
      var after := AccountsAt(r.items, AccountsKey(p));
      && r.address !in before
      && after.Keys == before.Keys + {r.address}
      && |after.Keys| == |before.Keys| + 1
      && after[r.address] == Account(r.address, f.password, createdAt)
      && (forall a :: a in before ==> after[a] == before[a])
      && (forall k :: k != AccountsKey(p) && k != GlobalAccountKey && k != GlobalMailboxKey ==>
            AccountsAt(r.items, k) == AccountsAt(items, k))
  {
    var r := Register(p, f, items, createdAt, now);
    var before := AccountsAt(items, AccountsKey(p));
    var account := Account(r.address, f.password, createdAt);
    var mailbox := Mailbox(WelcomeEmails(p, now));
    RegisteredItems(p, f, items, createdAt, now);
    AccountsAfterWrites(items, AccountsKey(p), before[r.address := account], Text(r.address), mailbox);
    KeyCountAfterInsert(before, r.address, account);
  }

  /** The store a registration writes: the extended dictionary, then the two global keys. */
  lemma RegisteredItems(p: Provider, f: Form, items: map<string, Value>, createdAt: string, now: int)
    requires Register(p, f, items, createdAt, now).Registered?
    ensures var r := Register(p, f, items, createdAt, now);
      var before := AccountsAt(items, AccountsKey(p));
      && r.address !in before
      && r.items == items[AccountsKey(p) := Accounts(before[r.address := Account(r.address, f.password, createdAt)])]
                         [GlobalAccountKey := Text(r.address)][GlobalMailboxKey := Mailbox(WelcomeEmails(p, now))]
  {
  }

  /**
   * Writing a dictionary under `key` and then the two global keys: that
   * dictionary is read back under `key`, and every other accounts key
   * reads as before.
   */
  lemma AccountsAfterWrites(items: map<string, Value>, key: string, m: map<string, Account>, account: Value, mailbox: Value)
    requires key != GlobalAccountKey && key != GlobalMailboxKey
    ensures var items' := items[key := Accounts(m)][GlobalAccountKey := account][GlobalMailboxKey := mailbox];
      && AccountsAt(items', key) == m
      && forall k :: k != key && k != GlobalAccountKey && k != GlobalMailboxKey ==> AccountsAt(items', k) == AccountsAt(items, k)
  {
  }

  /** Inserting a key a dictionary lacks adds one to its key count. */
  lemma KeyCountAfterInsert(m: map<string, Account>, key: string, value: Account)
    requires key !in m
    ensures m[key := value].Keys == m.Keys + {key}
    ensures |m[key := value].Keys| == |m.Keys| + 1
  {
    assert m[key := value].Keys == m.Keys + {key};
  }

  /**
   * A registration records the address as the one global account and
   * replaces the global mailbox by the two welcome e-mails; no other key of
   * the store changes.
   */
  lemma RegisterSetsGlobals(p: Provider, f: Form, items: map<string, Value>, createdAt: string, now: int)
    requires Register(p, f, items, createdAt, now).Registered?
    ensures var r := Register(p, f, items, createdAt, now);
      && HasCreatedAccount(r.items)
      && CreatedEmail(r.items) == r.address
      && MailboxAt(r.items) == WelcomeEmails(p, now)
      && r.items.Keys == items.Keys + {AccountsKey(p), GlobalAccountKey, GlobalMailboxKey}
      && (forall k :: k in items && k != AccountsKey(p) && k != GlobalAccountKey && k != GlobalMailboxKey ==>
            r.items[k] == items[k])
  {
    RegisteredItems(p, f, items, createdAt, now);
  }

  // ---------------------------------------------------------------------------
  // The website

  class MailSite {
    const provider: Provider
    const storage: LocalStorage
    var page: Page
    var form: Form
    var error: string
    var existingEmail: string

    /** The site opens on its home page with an empty form. */
    constructor (provider: Provider, storage: LocalStorage)
      ensures this.provider == provider && this.storage == storage
      ensures page == Home && form == EmptyForm && error == "" && existingEmail == ""
    {
      this.provider := provider;
      this.storage := storage;
      page := Home;
      form := EmptyForm;
      error := "";
      existingEmail := "";
    }

    /** Typing into the sign-up form. */
    method EditForm(f: Form)
      modifies this
      ensures form == f && page == old(page) && error == old(error) && existingEmail == old(existingEmail)
    {
      form := f;
    }

    /**
     * Submitting the sign-up form: on a rejection only the error changes;
     * on a registration the store is written, the form shows the new
     * address and the site moves to the success page.
     */
    method HandleSignUp(createdAt: string, now: int)
      modifies this, storage
      ensures var r := Register(provider, old(form), old(storage.items), createdAt, now);
        match r
        case Rejected(m) =>
          error == m && storage.items == old(storage.items) && page == old(page) && form == old(form)
        case Registered(a, items) =>
          error == "" && storage.items == items && page == Success && form == old(form).(email := a)
      ensures existingEmail == old(existingEmail)
    {
      error := "";
      var invalid := Validate(form);
      if invalid.Some? {
        error := invalid.value;
        return;
      }
      var address := Address(provider, form.email);
      var accounts := AccountsAt(storage.items, AccountsKey(provider));
      if address in accounts {
        error := UsernameTaken;
        return;
      }
      accounts := accounts[address := Account(address, form.password, createdAt)];
      storage.SetItem(AccountsKey(provider), Accounts(accounts));
      storage.SetItem(GlobalAccountKey, Text(address));
      storage.SetItem(GlobalMailboxKey, Mailbox(WelcomeEmails(provider, now)));
      form := form.(email := address);
      page := Success;
    }

    /**
     * The "back to home" links: to the notice page when an account exists,
     * otherwise home; the form and the error are cleared.
     */
    method HandleHome()
      ensures page == (if HasCreatedAccount(storage.items) then Exists else Home)
      ensures existingEmail == (if HasCreatedAccount(storage.items) then CreatedEmail(storage.items) else old(existingEmail))
      ensures form == EmptyForm && error == ""
      modifies this
    {
      if HasCreatedAccount(storage.items) {
        page := Exists;
        existingEmail := CreatedEmail(storage.items);
      } else {
        page := Home;
      }
      form := EmptyForm;
      error := "";
    }

    /** The home page's call to action: the notice page when an account exists, else the sign-up form. */
    method GetStarted()
      modifies this
      ensures page == (if HasCreatedAccount(storage.items) then Exists else SignUp)
      ensures existingEmail == (if HasCreatedAccount(storage.items) then CreatedEmail(storage.items) else old(existingEmail))
      ensures form == old(form) && error == old(error)
    {
      if HasCreatedAccount(storage.items) {
        page := Exists;
        existingEmail := CreatedEmail(storage.items);
      } else {
        page := SignUp;
      }
    }

    /** The notice page's back button: home, nothing else changes. */
    method BackFromNotice()
      modifies this
      ensures page == Home && form == old(form) && error == old(error) && existingEmail == old(existingEmail)
    {
      page := Home;
    }

    /** The back button of the home page shown to a registered user: home with an empty form. */
    method BackFromRegisteredHome()
      modifies this
      ensures page == Home && form == EmptyForm && error == old(error) && existingEmail == old(existingEmail)
    {
      page := Home;
      form := EmptyForm;
    }
  }
}
