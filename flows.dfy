/**
 * What the mail websites and the mail client promise each other through the
 * shared store: an account created on a website signs in to the client,
 * and the client then opens on the two welcome e-mails.
 */
module Flows {
  import opened Wrappers
  import Text
  import opened Store
  import Mail
  import Signup

  /** A string holding a character that is not whitespace is not blank. */
  lemma NotBlank(s: string, i: nat)
    requires i < |s| && !Text.IsWhitespace(s[i])
    ensures !Text.IsBlank(s)
  {
  }

  /** The first dictionary holding the address, with that password, signs it in. */
  lemma DecidedBy(email: string, password: string, books: seq<map<string, Account>>, k: nat)
    requires k < |books| && email in books[k] && books[k][email].password == password
    requires forall j :: 0 <= j < k ==> email !in books[j]
    ensures Mail.Decide(email, password, books) == Mail.SignedIn(email)
  {
    var h := Mail.Holder(email, books);
    assert h == k;
  }

  /** Signing in with an address the dictionaries resolve to that password succeeds. */
  lemma LoginSucceeds(email: string, password: string, items: map<string, Value>, k: nat)
    requires !Text.IsBlank(email) && password != ""
    requires k < 3 && email in Mail.Books(items)[k] && Mail.Books(items)[k][email].password == password
    requires forall j :: 0 <= j < k ==> email !in Mail.Books(items)[j]
    ensures Mail.Login(email, password, items) == Mail.SignedIn(email)
  {
    DecidedBy(email, password, Mail.Books(items), k);
  }

  /** The account a registration stores, and the dictionary the client looks it up in. */
  lemma RegisteredAccount(p: Signup.Provider, f: Signup.Form, items: map<string, Value>, createdAt: string, now: int)
    requires Signup.Register(p, f, items, createdAt, now).Registered?
    ensures var r := Signup.Register(p, f, items, createdAt, now);
      var k := if p == Signup.TrustMail then 0 else 1;
      && |f.password| >= 6
      && !Text.IsBlank(r.address)
      && r.address in Mail.Books(r.items)[k]
      && Mail.Books(r.items)[k][r.address].password == f.password
      && (p == Signup.ProMail ==> Mail.Books(r.items)[0] == AccountsAt(items, TrustMailAccountsKey))
  {
    var r := Signup.Register(p, f, items, createdAt, now);
    Signup.RegisterRejects(p, f, items, createdAt, now);
    assert r.address[|f.email|] == '@';
    NotBlank(r.address, |f.email|);
    RegisteredInBook(p, f, items, createdAt, now);
  }

  /** The new account sits in the dictionary the client checks for that provider. */
  lemma RegisteredInBook(p: Signup.Provider, f: Signup.Form, items: map<string, Value>, createdAt: string, now: int)
    requires Signup.Register(p, f, items, createdAt, now).Registered?
    ensures var r := Signup.Register(p, f, items, createdAt, now);
      var k := if p == Signup.TrustMail then 0 else 1;
      && r.address in Mail.Books(r.items)[k]
      && Mail.Books(r.items)[k][r.address].password == f.password
      && (p == Signup.ProMail ==> Mail.Books(r.items)[0] == AccountsAt(items, TrustMailAccountsKey))
  {
    Signup.RegisterInsertsOneAccount(p, f, items, createdAt, now);
  }

  /**
   * Right after a registration, the mail client signs in with the new
   * address and the submitted password. A ProMail address is looked up
   * after the TrustMail dictionary, so it must not also be a key there.
   */
  lemma SignUpThenLogin(p: Signup.Provider, f: Signup.Form, items: map<string, Value>, createdAt: string, now: int)
    requires Signup.Register(p, f, items, createdAt, now).Registered?
    requires p == Signup.ProMail ==> Signup.Address(p, f.email) !in AccountsAt(items, TrustMailAccountsKey)
    ensures var r := Signup.Register(p, f, items, createdAt, now);
      Mail.Login(r.address, f.password, r.items) == Mail.SignedIn(r.address)
  {
    var r := Signup.Register(p, f, items, createdAt, now);
    RegisteredAccount(p, f, items, createdAt, now);
    LoginSucceeds(r.address, f.password, r.items, if p == Signup.TrustMail then 0 else 1);
  }

  /**
   * The new mailbox: the inbox lists both welcome e-mails with the welcome
   * first, both count as unread, and the badge reads "2".
   */
  lemma WelcomeInbox(p: Signup.Provider, now: int)
    ensures var es := Signup.WelcomeEmails(p, now);
      && Mail.FilteredEmails(es, "inbox", "") == es
      && Mail.UnreadCount(es) == 2
      && Mail.InboxBadge(es) == Some("2")
  {
    var es := Signup.WelcomeEmails(p, now);
    Signup.WelcomeEmailsFresh(p, now);
    WelcomeShown(es);
    WelcomeUnread(es);
    assert Text.NatToString(2) == "2";
  }

  /** Two fresh e-mails, the first the newer, are the inbox as shown. */
  lemma WelcomeShown(es: seq<Email>)
    requires |es| == 2 && es[0].timestamp >= es[1].timestamp
    requires forall i :: 0 <= i < |es| ==> !es[i].archived && !es[i].deleted
    ensures Mail.FilteredEmails(es, "inbox", "") == es
  {
    assert Text.IsBlank("");
    Mail.FilterKeepsAll(es, e => Mail.InMailbox(e, "inbox"));
    Mail.SortKeepsSorted(es);
  }

  /** Two fresh e-mails are both unread. */
  lemma WelcomeUnread(es: seq<Email>)
    requires |es| == 2
    requires forall i :: 0 <= i < |es| ==> !es[i].read && !es[i].archived && !es[i].deleted
    ensures Mail.UnreadCount(es) == 2
  {
    Mail.FilterKeepsAll(es, Mail.Unread);
  }
}
