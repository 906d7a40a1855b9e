/**
 * The records the mail code keeps in the browser's `localStorage`, and the
 * store itself as an abstract key-value map. JSON (de)serialisation is not
 * modelled: each key holds an already-decoded value.
 */
module Store {
  import opened Wrappers

  datatype Attachment = Attachment(id: string, name: string, size: nat, kind: string, content: string)

  /** One e-mail of the global mailbox; `timestamp` is milliseconds since the epoch. */
  datatype Email = Email(
    id: string,
    from: string,
    fromEmail: string,
    subject: string,
    body: string,
    timestamp: int,
    read: bool,
    starred: bool,
    archived: bool,
    deleted: bool,
    attachments: seq<Attachment>)

  /** An entry of `promail_accounts`, `trustmail_accounts` or `mail_accounts`. */
  datatype Account = Account(email: string, password: string, createdAt: string)

  /** What a key of the store holds once parsed. */
  datatype Value =
    | Text(text: string)
    | Accounts(accounts: map<string, Account>)
    | Mailbox(emails: seq<Email>)

  const TrustMailAccountsKey: string := "trustmail_accounts"
  const ProMailAccountsKey: string := "promail_accounts"
  const LegacyAccountsKey: string := "mail_accounts"
  const GlobalAccountKey: string := "global_mail_account"
  const GlobalMailboxKey: string := "global_mailbox"

  /**
   * `JSON.parse(localStorage.getItem(key) || '{}')` for an accounts
   * dictionary: a missing key reads as the empty dictionary.
   */
  function AccountsAt(items: map<string, Value>, key: string): (m: map<string, Account>)
    ensures key !in items ==> m == map[]
  {
    if key in items && items[key].Accounts? then items[key].accounts else map[]
  }

  /** `localStorage.getItem(key)` for a text value; `None` is `null`. */
  function TextAt(items: map<string, Value>, key: string): Option<string>
  {
    if key in items && items[key].Text? then Some(items[key].text) else None
  }

  /**
   * The mail client's loader of the global mailbox: the stored e-mails, or
   * none when the key is missing or does not hold a mailbox.
   */
  function MailboxAt(items: map<string, Value>): (es: seq<Email>)
    ensures GlobalMailboxKey !in items ==> es == []
  {
    if GlobalMailboxKey in items && items[GlobalMailboxKey].Mailbox? then items[GlobalMailboxKey].emails else []
  }

  /** The browser's `localStorage`, shared by every site and application. */
  class LocalStorage {
    var items: map<string, Value>

    constructor (initial: map<string, Value>)
      ensures items == initial
    {
      items := initial;
    }

    /** `localStorage.setItem(key, value)`. */
    method SetItem(key: string, value: Value)
      modifies this
      ensures items == old(items)[key := value]
    {
      items := items[key := value];
    }
  }
}
