/**
 * The mail client application: signing in against the accounts the mail
 * sites created, the mailbox views (inbox, starred, archived, trash) with
 * search and newest-first order, the unread badge, and the per-message flags.
 */
module Mail {
  import opened Wrappers
  import Text
  import opened Store

  // ---------------------------------------------------------------------------
  // Filtering, search and order

  /** `es.filter(keep)`: the e-mails that pass, in their order, each as often as before. */
  function Filter(es: seq<Email>, keep: Email -> bool): (r: seq<Email>)
    ensures forall e :: multiset(r)[e] == if keep(e) then multiset(es)[e] else 0
    ensures forall i :: 0 <= i < |r| ==> keep(r[i])
    ensures |r| <= |es|
  {
    if es == [] then []
    else
      assert es == [es[0]] + es[1..];
      (if keep(es[0]) then [es[0]] else []) + Filter(es[1..], keep)
  }

  /** Which e-mails each mailbox lists; a mailbox name not known lists them all. */
  predicate InMailbox(e: Email, mailbox: string) {
    if mailbox == "inbox" then !e.deleted && !e.archived
    else if mailbox == "starred" then e.starred && !e.deleted
    else if mailbox == "archived" then e.archived && !e.deleted
    else if mailbox == "trash" then e.deleted
    else true
  }

  /** The lower-cased query occurs in the lower-cased sender, subject or body. */
  predicate MatchesQuery(e: Email, query: string) {
    var q := Text.ToLower(query);
    || Text.Includes(Text.ToLower(e.from), q)
    || Text.Includes(Text.ToLower(e.subject), q)
    || Text.Includes(Text.ToLower(e.body), q)
  }

  /** Search ignores the case of the query. */
  lemma SearchIgnoresCase(e: Email, query: string)
    ensures MatchesQuery(e, Text.ToLower(query)) == MatchesQuery(e, query)
  {
    Text.ToLowerIdempotent(query);
  }

  /** Search applies only to a query that is not blank; the query itself is not trimmed. */
  predicate PassesSearch(e: Email, query: string) {
    Text.IsBlank(query) || MatchesQuery(e, query)
  }

  /** `sorted` listed newest first. */
  predicate NewestFirst(sorted: seq<Email>) {
    forall i, j :: 0 <= i < j < |sorted| ==> sorted[i].timestamp >= sorted[j].timestamp
  }

  /** Putting an e-mail not older than the first of a newest-first list in front keeps it newest first. */
  lemma PrependNewest(x: Email, s: seq<Email>)
    requires NewestFirst(s)
    requires s != [] ==> x.timestamp >= s[0].timestamp
    ensures NewestFirst([x] + s)
  {
    var r := [x] + s;
    forall i, j | 0 <= i < j < |r| ensures r[i].timestamp >= r[j].timestamp {
      assert r[j] == s[j - 1];
      if i > 0 {
        assert r[i] == s[i - 1];
      } else if j > 1 {
        assert s[0].timestamp >= s[j - 1].timestamp;
      }
    }
  }

  /** Puts `e` before the first e-mail that is not newer than it. */
  function Insert(e: Email, sorted: seq<Email>): (r: seq<Email>)
    requires NewestFirst(sorted)
    ensures NewestFirst(r)
    ensures multiset(r) == multiset(sorted) + multiset{e}
    ensures r[0] == e || r[0] == sorted[0]
  {
    if sorted == [] || e.timestamp >= sorted[0].timestamp then
      PrependNewest(e, sorted);
      [e] + sorted
    else
      var rest := Insert(e, sorted[1..]);
      assert sorted == [sorted[0]] + sorted[1..];
      PrependNewest(sorted[0], rest);
      [sorted[0]] + rest
  }

  /** `sort((a, b) => b.timestamp - a.timestamp)`: a stable newest-first sort. */
  function SortNewestFirst(es: seq<Email>): (r: seq<Email>)
    ensures NewestFirst(r)
    ensures multiset(r) == multiset(es)
  {
    if es == [] then []
    else
      assert es == [es[0]] + es[1..];
      Insert(es[0], SortNewestFirst(es[1..]))
  }

  /** A filter every e-mail passes returns the list itself. */
  lemma {:induction false} FilterKeepsAll(es: seq<Email>, keep: Email -> bool)
    requires forall i :: 0 <= i < |es| ==> keep(es[i])
    ensures Filter(es, keep) == es
  {
    if es != [] {
      FilterKeepsAll(es[1..], keep);
    }
  }

  /**
   * A filter keeps the order: filtering a concatenation filters each part.
   * With the contract of `Filter` on a one-element list, this fixes the
   * result completely.
   */
  lemma {:induction false} FilterAppend(a: seq<Email>, b: seq<Email>, keep: Email -> bool)
    ensures Filter(a + b, keep) == Filter(a, keep) + Filter(b, keep)
  {
    if a == [] {
      assert a + b == b;
    } else {
      var x, tail := a[0], a[1..];
      var kx := if keep(x) then [x] else [];
      SplitFirst(a, b);
      FilterCons(x, tail + b, keep);
      FilterAppend(tail, b, keep);
      Associative(kx, Filter(tail, keep), Filter(b, keep));
      FilterCons(x, tail, keep);
    }
  }

  /** A non-empty list is its first element followed by the rest, also in a concatenation. */
  lemma SplitFirst<T>(a: seq<T>, b: seq<T>)
    requires a != []
    ensures a == [a[0]] + a[1..]
    ensures a + b == [a[0]] + (a[1..] + b)
  {
  }

  lemma EmptyLeft<T>(a: seq<T>)
    ensures [] + a == a
  {
  }

  lemma Associative<T>(a: seq<T>, b: seq<T>, c: seq<T>)
    ensures a + (b + c) == (a + b) + c
  {
  }

  /** Filtering a list with one e-mail put in front. */
  lemma FilterCons(x: Email, s: seq<Email>, keep: Email -> bool)
    ensures Filter([x] + s, keep) == (if keep(x) then [x] else []) + Filter(s, keep)
  {
    assert ([x] + s)[0] == x && ([x] + s)[1..] == s;
  }

  /** Sorting a list that is already newest first changes nothing. */
  lemma {:induction false} SortKeepsSorted(es: seq<Email>)
    requires NewestFirst(es)
    ensures SortNewestFirst(es) == es
  {
    if es != [] {
      assert NewestFirst(es[1..]);
      SortKeepsSorted(es[1..]);
    }
  }

  /** The e-mails of `es` with timestamp `t`, in their order. */
  function StampedAt(es: seq<Email>, t: int): (r: seq<Email>)
    ensures forall i :: 0 <= i < |r| ==> r[i].timestamp == t
  {
    if es == [] then []
    else (if es[0].timestamp == t then [es[0]] else []) + StampedAt(es[1..], t)
  }

  /** `StampedAt` of a list with one e-mail put in front. */
  lemma StampedAtCons(x: Email, s: seq<Email>, t: int)
    ensures StampedAt([x] + s, t) == (if x.timestamp == t then [x] else []) + StampedAt(s, t)
  {
    assert ([x] + s)[1..] == s;
  }

  /** Inserting puts `e` ahead of every e-mail already there with its timestamp. */
  lemma {:induction false} InsertStable(e: Email, sorted: seq<Email>, t: int)
    requires NewestFirst(sorted)
    ensures StampedAt(Insert(e, sorted), t) == (if e.timestamp == t then [e] else []) + StampedAt(sorted, t)
  {
    if sorted == [] || e.timestamp >= sorted[0].timestamp {
      StampedAtCons(e, sorted, t);
    } else {
      var first, tail := sorted[0], sorted[1..];
      var rest := Insert(e, tail);
      assert Insert(e, sorted) == [first] + rest;
      InsertStable(e, tail, t);
      StampedAtCons(first, rest, t);
      SplitFirst(sorted, []);
      StampedAtCons(first, tail, t);
      // `first` is strictly newer than `e`, so at most one of them has timestamp `t`.
      if e.timestamp == t {
        EmptyLeft(StampedAt(rest, t));
        EmptyLeft(StampedAt(tail, t));
      } else {
        EmptyLeft(StampedAt(tail, t));
        EmptyLeft(StampedAt(sorted, t));
      }
    }
  }

  /**
   * The sort is stable: e-mails with the same timestamp keep the order they
   * had in the input.
   */
  lemma {:induction false} SortStable(es: seq<Email>, t: int)
    ensures StampedAt(SortNewestFirst(es), t) == StampedAt(es, t)
  {
    if es != [] {
      SortStable(es[1..], t);
      InsertStable(es[0], SortNewestFirst(es[1..]), t);
    }
  }

  /** Filtering and picking the e-mails with one timestamp can be done in either order. */
  lemma {:induction false} FilterStamped(es: seq<Email>, keep: Email -> bool, t: int)
    ensures StampedAt(Filter(es, keep), t) == Filter(StampedAt(es, t), keep)
  {
    if es != [] {
      FilterStamped(es[1..], keep, t);
      var x := es[0];
      var rest := Filter(es[1..], keep);
      assert es == [x] + es[1..];
      FilterCons(x, es[1..], keep);
      StampedAtCons(x, es[1..], t);
      if keep(x) {
        StampedAtCons(x, rest, t);
      } else {
        assert [] + rest == rest;
      }
      if x.timestamp == t {
        FilterCons(x, StampedAt(es[1..], t), keep);
      } else {
        assert [] + StampedAt(es[1..], t) == StampedAt(es[1..], t);
      }
    }
  }

  /** Filtering by one predicate and then another is filtering by both. */
  lemma {:induction false} FilterFilter(es: seq<Email>, f: Email -> bool, g: Email -> bool, h: Email -> bool)
    requires forall e :: h(e) == (f(e) && g(e))
    ensures Filter(Filter(es, f), g) == Filter(es, h)
  {
    if es != [] {
      var x, tail := es[0], es[1..];
      FilterFilter(tail, f, g, h);
      SplitFirst(es, []);
      FilterCons(x, tail, f);
      FilterCons(x, tail, h);
      assert h(x) == (f(x) && g(x));
      if f(x) {
        FilterCons(x, Filter(tail, f), g);
      } else {
        EmptyLeft(Filter(tail, f));
        EmptyLeft(Filter(tail, h));
      }
    }
  }

  /** The list the client shows: mailbox filter, then search, then newest first. */
  function FilteredEmails(es: seq<Email>, mailbox: string, query: string): seq<Email> {
    var inBox := Filter(es, e => InMailbox(e, mailbox));
    var found := if Text.IsBlank(query) then inBox else Filter(inBox, e => MatchesQuery(e, query));
    SortNewestFirst(found)
  }

  /**
   * The shown list holds exactly the e-mails of the mailbox that pass the
   * search, each as often as in the mailbox data (so it is a sub-multiset of
   * it), newest first.
   */
  lemma FilteredEmailsSpec(es: seq<Email>, mailbox: string, query: string)
    ensures var r := FilteredEmails(es, mailbox, query);
      && NewestFirst(r)
      && (forall e :: multiset(r)[e] == if InMailbox(e, mailbox) && PassesSearch(e, query) then multiset(es)[e] else 0)
      && multiset(r) <= multiset(es)
      && (forall e :: e in r <==> e in es && InMailbox(e, mailbox) && PassesSearch(e, query))
  {
    var r := FilteredEmails(es, mailbox, query);
    forall e ensures e in r <==> e in es && InMailbox(e, mailbox) && PassesSearch(e, query) {
      assert e in r <==> multiset(r)[e] > 0;
      assert e in es <==> multiset(es)[e] > 0;
    }
  }

  /**
   * E-mails shown with the same timestamp appear in their order in the data:
   * those with timestamp `t` are the ones of the mailbox that pass the search,
   * in input order.
   */
  lemma ShownOrder(es: seq<Email>, mailbox: string, query: string, t: int)
    ensures StampedAt(FilteredEmails(es, mailbox, query), t) ==
      Filter(StampedAt(es, t), e => InMailbox(e, mailbox) && PassesSearch(e, query))
  {
    var inMailbox := e => InMailbox(e, mailbox);
    var matches := e => MatchesQuery(e, query);
    var both := e => InMailbox(e, mailbox) && PassesSearch(e, query);
    var inBox := Filter(es, inMailbox);
    var found := if Text.IsBlank(query) then inBox else Filter(inBox, matches);
    assert FilteredEmails(es, mailbox, query) == SortNewestFirst(found);
    SortStable(found, t);
    if Text.IsBlank(query) {
      FilterStamped(es, inMailbox, t);
      assert Filter(StampedAt(es, t), inMailbox) == Filter(StampedAt(es, t), both) by {
        FilterFilter(StampedAt(es, t), inMailbox, e => true, both);
        FilterKeepsAll(Filter(StampedAt(es, t), inMailbox), e => true);
      }
    } else {
      FilterStamped(inBox, matches, t);
      FilterStamped(es, inMailbox, t);
      FilterFilter(StampedAt(es, t), inMailbox, matches, both);
    }
  }

  // ---------------------------------------------------------------------------
  // Unread count and badge

  /** An e-mail counted as unread: not read, not deleted, not archived. */
  predicate Unread(e: Email) {
    !e.read && !e.deleted && !e.archived
  }

  function UnreadCount(es: seq<Email>): nat {
    |Filter(es, Unread)|
  }

  /**
   * The count is zero exactly when no e-mail is unread, and every unread
   * e-mail is one the inbox lists.
   */
  lemma UnreadCountSpec(es: seq<Email>)
    ensures UnreadCount(es) == 0 <==> forall i :: 0 <= i < |es| ==> !Unread(es[i])
    ensures UnreadCount(es) <= |Filter(es, e => InMailbox(e, "inbox"))|
  {
    NoUnread(es);
    UnreadInInbox(es, e => InMailbox(e, "inbox"));
  }

  /** The count is zero exactly when no e-mail is unread. */
  lemma {:induction false} NoUnread(es: seq<Email>)
    ensures UnreadCount(es) == 0 <==> forall i :: 0 <= i < |es| ==> !Unread(es[i])
  {
    if es != [] {
      NoUnread(es[1..]);
      assert Filter(es, Unread) == (if Unread(es[0]) then [es[0]] else []) + Filter(es[1..], Unread);
      assert forall i :: 1 <= i < |es| ==> es[i] == es[1..][i - 1];
    }
  }

  /** Every unread e-mail passes `inbox`, so no more e-mails are unread than pass it. */
  lemma {:induction false} UnreadInInbox(es: seq<Email>, inbox: Email -> bool)
    requires forall e :: Unread(e) ==> inbox(e)
    ensures UnreadCount(es) <= |Filter(es, inbox)|
  {
    if es != [] {
      UnreadInInbox(es[1..], inbox);
      assert Filter(es, Unread) == (if Unread(es[0]) then [es[0]] else []) + Filter(es[1..], Unread);
      assert Filter(es, inbox) == (if inbox(es[0]) then [es[0]] else []) + Filter(es[1..], inbox);
    }
  }

  /** The inbox badge: absent at zero, otherwise the count in decimal. */
  function InboxBadge(es: seq<Email>): (b: Option<string>)
    ensures b == None <==> UnreadCount(es) == 0
    ensures b.Some? ==> b.value != [] && forall i :: 0 <= i < |b.value| ==> Text.IsDigit(b.value[i])
    ensures b.Some? ==> Text.DigitsValue(b.value) == UnreadCount(es) && b.value[0] != '0'
  {
    var n := UnreadCount(es);
    if n > 0 then
      Text.NatToStringRoundTrip(n);
      Some(Text.NatToString(n))
    else None
  }

  // ---------------------------------------------------------------------------
  // Per-message flags

  datatype FlagChange = MarkRead | ToggleStar | MarkDeleted | ToggleArchived

  /** The change to one e-mail. */
  function Flagged(f: FlagChange, e: Email): Email {
    match f
    case MarkRead => if !e.read then e.(read := true) else e
    case ToggleStar => e.(starred := !e.starred)
    case MarkDeleted => e.(deleted := true)
    case ToggleArchived => e.(archived := !e.archived)
  }

  /** `prev.map(e => e.id === id ? change(e) : e)`. */
  function UpdateEmails(es: seq<Email>, id: string, f: FlagChange): (r: seq<Email>)
    ensures |r| == |es|
    ensures forall i :: 0 <= i < |es| ==> r[i] == if es[i].id == id then Flagged(f, es[i]) else es[i]
  {
    seq(|es|, i requires 0 <= i < |es| => if es[i].id == id then Flagged(f, es[i]) else es[i])
  }

  /** All fields but the four flags agree. */
  predicate SameMessage(a: Email, b: Email) {
    a == b.(read := a.read, starred := a.starred, archived := a.archived, deleted := a.deleted)
  }

  /**
   * A flag change touches only the e-mails with that id, and of them only
   * the one flag it is about; every other e-mail is unchanged.
   */
  lemma OnlyMatchingEmailChanges(es: seq<Email>, id: string, f: FlagChange)
    ensures var r := UpdateEmails(es, id, f);
      && (forall i :: 0 <= i < |es| && es[i].id != id ==> r[i] == es[i])
      && (forall i :: 0 <= i < |es| ==> SameMessage(r[i], es[i]) && r[i].id == es[i].id)
      && (forall i :: 0 <= i < |es| && es[i].id == id ==>
            && (f == MarkRead ==> r[i].read && r[i].starred == es[i].starred && r[i].archived == es[i].archived && r[i].deleted == es[i].deleted)
            && (f == ToggleStar ==> r[i].starred != es[i].starred && r[i].read == es[i].read && r[i].archived == es[i].archived && r[i].deleted == es[i].deleted)
            && (f == MarkDeleted ==> r[i].deleted && r[i].read == es[i].read && r[i].starred == es[i].starred && r[i].archived == es[i].archived)
            && (f == ToggleArchived ==> r[i].archived != es[i].archived && r[i].read == es[i].read && r[i].starred == es[i].starred && r[i].deleted == es[i].deleted))
  {
  }

  /** Opening an e-mail twice is the same as opening it once. */
  lemma MarkReadIdempotent(es: seq<Email>, id: string)
    ensures UpdateEmails(UpdateEmails(es, id, MarkRead), id, MarkRead) == UpdateEmails(es, id, MarkRead)
  {
  }

  /** Deleting twice is the same as deleting once. */
  lemma DeleteIdempotent(es: seq<Email>, id: string)
    ensures UpdateEmails(UpdateEmails(es, id, MarkDeleted), id, MarkDeleted) == UpdateEmails(es, id, MarkDeleted)
  {
  }

  /** Starring twice, or archiving twice, gives back the original list. */
  lemma TogglesAreInvolutions(es: seq<Email>, id: string)
    ensures UpdateEmails(UpdateEmails(es, id, ToggleStar), id, ToggleStar) == es
    ensures UpdateEmails(UpdateEmails(es, id, ToggleArchived), id, ToggleArchived) == es
  {
  }

  /** Where `b` is `a` with some e-mails no longer unread, `b` counts fewer unread e-mails. */
  lemma {:induction false} FewerUnread(a: seq<Email>, b: seq<Email>)
    requires |a| == |b|
    requires forall i :: 0 <= i < |a| && Unread(b[i]) ==> Unread(a[i])
    ensures UnreadCount(b) <= UnreadCount(a)
    ensures (exists i :: 0 <= i < |a| && Unread(a[i]) && !Unread(b[i])) ==> UnreadCount(b) < UnreadCount(a)
  {
    if a != [] {
      FewerUnread(a[1..], b[1..]);
      if exists i :: 0 <= i < |a| && Unread(a[i]) && !Unread(b[i]) {
        var i :| 0 <= i < |a| && Unread(a[i]) && !Unread(b[i]);
        if i > 0 {
          assert a[1..][i - 1] == a[i] && b[1..][i - 1] == b[i];
        }
      }
    }
  }

  /** Opening an e-mail never raises the unread count, and lowers it when that e-mail was unread. */
  lemma MarkReadLowersUnread(es: seq<Email>, id: string)
    ensures UnreadCount(UpdateEmails(es, id, MarkRead)) <= UnreadCount(es)
    ensures (exists i :: 0 <= i < |es| && es[i].id == id && Unread(es[i])) ==>
      UnreadCount(UpdateEmails(es, id, MarkRead)) < UnreadCount(es)
  {
    var r := UpdateEmails(es, id, MarkRead);
    FewerUnread(es, r);
  }

  // ---------------------------------------------------------------------------
  // Signing in

  datatype LoginResult = SignedIn(user: string) | Refused(message: string)

  /** The position of the first account dictionary holding `email`, or `|books|` if none does. */
  function Holder(email: string, books: seq<map<string, Account>>): (k: nat)
    ensures k <= |books|
    ensures forall j :: 0 <= j < k ==> email !in books[j]
    ensures k < |books| ==> email in books[k]
  {
    if books == [] then 0
    else if email in books[0] then 0
    else 1 + Holder(email, books[1..])
  }

  /** The account dictionaries in the order they are tried: TrustMail, ProMail, then the legacy one. */
  function Books(items: map<string, Value>): seq<map<string, Account>> {
    [AccountsAt(items, TrustMailAccountsKey), AccountsAt(items, ProMailAccountsKey), AccountsAt(items, LegacyAccountsKey)]
  }

  /** The first dictionary holding the address decides; the others are not looked at. */
  function Decide(email: string, password: string, books: seq<map<string, Account>>): (r: LoginResult)
    ensures var k := Holder(email, books);
      r == if k == |books| then Refused("Account not found")
           else if books[k][email].password != password then Refused("Invalid password")
           else SignedIn(email)
  {
    if books == [] then Refused("Account not found")
    else if email in books[0] then
      if books[0][email].password != password then Refused("Invalid password") else SignedIn(email)
    else Decide(email, password, books[1..])
  }

  /** The outcome of submitting the sign-in form. */
  function Login(email: string, password: string, items: map<string, Value>): LoginResult {
    if Text.IsBlank(email) then Refused("Please enter your email")
    else if password == "" then Refused("Please enter your password")
    else Decide(email, password, Books(items))
  }

  /**
   * Signing in succeeds exactly when the address is not blank, the password
   * is not empty, and the first of the TrustMail, ProMail and legacy
   * dictionaries that holds the address (as typed) holds that password; the
   * signed-in user is then that address.
   */
  lemma LoginSpec(email: string, password: string, items: map<string, Value>)
    ensures var r := Login(email, password, items);
      var books := Books(items);
      var k := Holder(email, books);
      && (r.SignedIn? <==> !Text.IsBlank(email) && password != "" && k < 3 && books[k][email].password == password)
      && (r.SignedIn? ==> r.user == email)
      && (r == Refused("Account not found") <==> !Text.IsBlank(email) && password != "" && k == 3)
      && (r == Refused("Invalid password") <==> !Text.IsBlank(email) && password != "" && k < 3 && books[k][email].password != password)
      && (Text.IsBlank(email) <==> r == Refused("Please enter your email"))
      && (!Text.IsBlank(email) && password == "" <==> r == Refused("Please enter your password"))
  {
  }

  /** A TrustMail account shadows a ProMail or legacy account with the same address. */
  lemma TrustMailDecidesFirst(email: string, password: string, items: map<string, Value>)
    requires !Text.IsBlank(email) && password != ""
    requires email in AccountsAt(items, TrustMailAccountsKey)
    ensures Login(email, password, items) ==
      if AccountsAt(items, TrustMailAccountsKey)[email].password == password then SignedIn(email)
      else Refused("Invalid password")
  {
  }

  // ---------------------------------------------------------------------------
  // The client

  /** `x || null` on an id: an empty id counts as no id. */
  function IdOrNull(id: string): Option<string> {
    if id == "" then None else Some(id)
  }

  /** The id the selection moves to after a delete: the first of the list shown before it. */
  function FirstShownId(es: seq<Email>, mailbox: string, query: string): Option<string> {
    var shown := FilteredEmails(es, mailbox, query);
    if shown == [] then None else IdOrNull(shown[0].id)
  }

  /**
   * The selection after a delete comes from the list shown before it, so
   * deleting the newest inbox e-mail leaves that very e-mail selected.
   */
  lemma DeleteKeepsStaleSelection(e: Email)
    requires e.id != "" && !e.deleted && !e.archived
    ensures FirstShownId([e], "inbox", "") == Some(e.id)
    ensures UpdateEmails([e], e.id, MarkDeleted)[0].deleted
    ensures FilteredEmails(UpdateEmails([e], e.id, MarkDeleted), "inbox", "") == []
  {
    assert Text.IsBlank("");
    assert Filter([e], x => InMailbox(x, "inbox")) == [e];
    var d := UpdateEmails([e], e.id, MarkDeleted);
    assert Filter(d, x => InMailbox(x, "inbox")) == [];
  }

  class MailClient {
    const storage: LocalStorage
    var currentUser: Option<string>
    var loginEmail: string
    var loginPassword: string
    var authError: string
    var activeMailbox: string
    var emails: seq<Email>
    var selectedEmailId: Option<string>
    var searchQuery: string

    /** A signed-out client on the inbox with no e-mails. */
    constructor (storage: LocalStorage)
      ensures this.storage == storage
      ensures currentUser == None && activeMailbox == "inbox" && emails == [] && selectedEmailId == None
      ensures loginEmail == "" && loginPassword == "" && authError == "" && searchQuery == ""
    {
      this.storage := storage;
      currentUser := None;
      loginEmail, loginPassword, authError := "", "", "";
      activeMailbox := "inbox";
      emails := [];
      selectedEmailId := None;
      searchQuery := "";
    }

    /** Typing into the sign-in form. */
    method EditLogin(email: string, password: string)
      modifies this
      ensures loginEmail == email && loginPassword == password
      ensures currentUser == old(currentUser) && authError == old(authError) && activeMailbox == old(activeMailbox)
      ensures emails == old(emails) && selectedEmailId == old(selectedEmailId) && searchQuery == old(searchQuery)
    {
      loginEmail, loginPassword := email, password;
    }

    /**
     * Submitting the sign-in form: the error is cleared, then either an
     * error message is shown or the user is signed in and the form cleared.
     */
    method HandleLogin()
      modifies this
      ensures var r := Login(old(loginEmail), old(loginPassword), storage.items);
        match r
        case Refused(m) =>
          authError == m && currentUser == old(currentUser)
          && loginEmail == old(loginEmail) && loginPassword == old(loginPassword)
        case SignedIn(u) =>
          authError == "" && currentUser == Some(u) && loginEmail == "" && loginPassword == ""
      ensures emails == old(emails) && selectedEmailId == old(selectedEmailId)
      ensures activeMailbox == old(activeMailbox) && searchQuery == old(searchQuery)
    {
      authError := "";
      if Text.Trim(loginEmail) == [] {
        authError := "Please enter your email";
        return;
      }
      if loginPassword == "" {
        authError := "Please enter your password";
        return;
      }
      match Decide(loginEmail, loginPassword, Books(storage.items))
      case Refused(m) =>
        authError := m;
      case SignedIn(u) =>
        currentUser := Some(u);
        loginEmail := "";
        loginPassword := "";
    }

    /**
     * When a user is signed in, the global mailbox is loaded into the client
     * and its first e-mail selected.
     */
    method OnUserChanged()
      modifies this
      ensures currentUser == old(currentUser)
      ensures if currentUser.Some? && currentUser.value != "" then
          && emails == MailboxAt(storage.items)
          && selectedEmailId == (if emails != [] then Some(emails[0].id) else old(selectedEmailId))
        else emails == old(emails) && selectedEmailId == old(selectedEmailId)
      ensures loginEmail == old(loginEmail) && loginPassword == old(loginPassword) && authError == old(authError)
      ensures activeMailbox == old(activeMailbox) && searchQuery == old(searchQuery)
    {
      if currentUser.Some? && currentUser.value != "" {
        var mailboxEmails := MailboxAt(storage.items);
        emails := mailboxEmails;
        if |mailboxEmails| > 0 {
          selectedEmailId := Some(mailboxEmails[0].id);
        }
      }
    }

    /** Signing out clears the user, the form and the error. */
    method HandleLogout()
      modifies this
      ensures currentUser == None && loginEmail == "" && loginPassword == "" && authError == ""
      ensures activeMailbox == old(activeMailbox) && emails == old(emails) && selectedEmailId == old(selectedEmailId)
      ensures searchQuery == old(searchQuery)
    {
      currentUser := None;
      loginEmail := "";
      loginPassword := "";
      authError := "";
    }

    /** Choosing a mailbox in the sidebar. */
    method SelectMailbox(mailbox: string)
      modifies this
      ensures activeMailbox == mailbox
      ensures currentUser == old(currentUser) && loginEmail == old(loginEmail) && loginPassword == old(loginPassword)
      ensures authError == old(authError) && emails == old(emails) && selectedEmailId == old(selectedEmailId)
      ensures searchQuery == old(searchQuery)
    {
      activeMailbox := mailbox;
    }

    /** Typing into the search box. */
    method SetSearchQuery(query: string)
      modifies this
      ensures searchQuery == query
      ensures currentUser == old(currentUser) && loginEmail == old(loginEmail) && loginPassword == old(loginPassword)
      ensures authError == old(authError) && activeMailbox == old(activeMailbox) && emails == old(emails)
      ensures selectedEmailId == old(selectedEmailId)
    {
      searchQuery := query;
    }

    /** The list on screen. */
    function Shown(): seq<Email>
      reads this
    {
      FilteredEmails(emails, activeMailbox, searchQuery)
    }

    /** The e-mail on screen: the selected id, looked up in the shown list. */
    function SelectedEmail(): (e: Option<Email>)
      reads this
      ensures e.Some? ==> e.value in Shown() && Some(e.value.id) == selectedEmailId
      ensures e.None? <==>
        (selectedEmailId.None? || selectedEmailId.value == "" || forall x :: x in Shown() ==> x.id != selectedEmailId.value)
      ensures e.Some? ==>
        exists k :: 0 <= k < |Shown()| && Shown()[k] == e.value && forall j :: 0 <= j < k ==> Shown()[j].id != e.value.id
    {
      if selectedEmailId.None? || selectedEmailId.value == "" then None
      else FindEmail(Shown(), selectedEmailId.value)
    }

    /** Opening an e-mail selects it and marks it read. */
    method SelectEmail(id: string)
      modifies this
      ensures selectedEmailId == Some(id)
      ensures emails == UpdateEmails(old(emails), id, MarkRead)
      ensures forall i :: 0 <= i < |emails| && emails[i].id == id ==> emails[i].read
      ensures currentUser == old(currentUser) && loginEmail == old(loginEmail) && loginPassword == old(loginPassword)
      ensures authError == old(authError) && activeMailbox == old(activeMailbox) && searchQuery == old(searchQuery)
    {
      selectedEmailId := Some(id);
      emails := UpdateEmails(emails, id, MarkRead);
    }

    /** The star button of a list row flips the star of the e-mails with that id. */
    method ToggleStarOf(id: string)
      modifies this
      ensures emails == UpdateEmails(old(emails), id, ToggleStar)
      ensures currentUser == old(currentUser) && loginEmail == old(loginEmail) && loginPassword == old(loginPassword)
      ensures authError == old(authError) && activeMailbox == old(activeMailbox) && selectedEmailId == old(selectedEmailId)
      ensures searchQuery == old(searchQuery)
    {
      emails := UpdateEmails(emails, id, ToggleStar);
    }

    /**
     * The star button of the open e-mail passes an empty object as its
     * event, so the handler's `stopPropagation` call throws before the
     * e-mails are updated: the click changes nothing.
     */
    method ToggleStarFromPane()
      modifies this
      ensures emails == old(emails) && selectedEmailId == old(selectedEmailId)
      ensures currentUser == old(currentUser) && loginEmail == old(loginEmail) && loginPassword == old(loginPassword)
      ensures authError == old(authError) && activeMailbox == old(activeMailbox) && searchQuery == old(searchQuery)
    {
    }

    /**
     * Delete: nothing without a selection; otherwise the selected e-mail is
     * marked deleted and the selection moves to the first e-mail of the list
     * as it was shown before the delete.
     */
    method HandleDelete()
      modifies this
      ensures currentUser == old(currentUser) && loginEmail == old(loginEmail) && loginPassword == old(loginPassword)
      ensures authError == old(authError) && activeMailbox == old(activeMailbox) && searchQuery == old(searchQuery)
      ensures old(selectedEmailId).None? || old(selectedEmailId).value == "" ==>
        emails == old(emails) && selectedEmailId == old(selectedEmailId)
      ensures old(selectedEmailId).Some? && old(selectedEmailId).value != "" ==>
        && emails == UpdateEmails(old(emails), old(selectedEmailId).value, MarkDeleted)
        && selectedEmailId == FirstShownId(old(emails), old(activeMailbox), old(searchQuery))
    {
      if selectedEmailId.Some? && selectedEmailId.value != "" {
        var firstShown := FirstShownId(emails, activeMailbox, searchQuery);
        emails := UpdateEmails(emails, selectedEmailId.value, MarkDeleted);
        selectedEmailId := firstShown;
      }
    }

    /** Archive: nothing without a selection; otherwise flips the selected e-mail's archived flag. */
    method HandleArchive()
      modifies this
      ensures old(selectedEmailId).None? || old(selectedEmailId).value == "" ==> emails == old(emails)
      ensures old(selectedEmailId).Some? && old(selectedEmailId).value != "" ==>
        emails == UpdateEmails(old(emails), old(selectedEmailId).value, ToggleArchived)
      ensures currentUser == old(currentUser) && loginEmail == old(loginEmail) && loginPassword == old(loginPassword)
      ensures authError == old(authError) && activeMailbox == old(activeMailbox) && selectedEmailId == old(selectedEmailId)
      ensures searchQuery == old(searchQuery)
    {
      if selectedEmailId.None? || selectedEmailId.value == "" {
        return;
      }
      emails := UpdateEmails(emails, selectedEmailId.value, ToggleArchived);
    }
  }

  /** `es.find(e => e.id === id)`: the first e-mail with that id, if any. */
  function FindEmail(es: seq<Email>, id: string): (r: Option<Email>)
    ensures r.Some? ==> r.value in es && r.value.id == id
    ensures r.None? <==> forall i :: 0 <= i < |es| ==> es[i].id != id
    ensures r.Some? ==> exists k :: 0 <= k < |es| && es[k] == r.value && forall j :: 0 <= j < k ==> es[j].id != id
  {
    if es == [] then None
    else if es[0].id == id then Some(es[0])
    else
      assert forall i :: 1 <= i < |es| ==> es[i] == es[1..][i - 1];
      var r := FindEmail(es[1..], id);
      assert r.Some? ==> exists k :: 0 <= k < |es| && es[k] == r.value && forall j :: 0 <= j < k ==> es[j].id != id by {
        if r.Some? {
          var k :| 0 <= k < |es[1..]| && es[1..][k] == r.value && forall j :: 0 <= j < k ==> es[1..][j].id != id;
          assert es[k + 1] == r.value;
          assert forall j :: 0 <= j < k + 1 ==> es[j].id != id;
        }
      }
      r
  }
}
