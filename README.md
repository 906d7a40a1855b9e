# Browser and mail flows of the simulated desktop, in Dafny

This project models the parts of the simulated desktop that hold real logic:

- **The browser application** (`src/components/apps/Browser.tsx`):
  - a list of tabs with an active tab;
  - each tab's requested and rendered URL, loading flag and progress;
  - per-tab history with an index, and the back, forward, reload and home buttons;
  - the fake loading animation: a random ramp below 75, then 75, then 100, then the commit.
- **The mail client** (`src/components/apps/Mail.tsx`):
  - sign-in against the three account dictionaries;
  - the inbox, starred, archived and trash views, with case-insensitive search and newest-first order;
  - the unread count and the inbox badge;
  - the read, star, delete and archive flags.
- **The ProMail and TrustMail websites** (`src/websites/sites/ProMail.tsx`, `src/websites/sites/TrustMail.tsx`):
  - the sign-up validation chain and the account insertion;
  - the single global account marker;
  - the reset of the shared mailbox to two welcome e-mails;
  - the page machine: home, sign-up, success, and an "already registered" notice.
  The two sites are one model, parameterised by `Provider`.

Modules:

- `Wrappers`: `Option`.
- `Text`: the JavaScript string operations used. These are `trim`, ASCII `toLowerCase`, `includes`, the first part of `split` and decimal `toString`.
- `Store`: the stored records, and `localStorage` as a class over a key→value map.
- `Browser`: the browser.
- `Mail`: the mail client.
- `Signup`: both mail websites.
- `Flows`: properties that connect the sites and the client through the shared store.

How the model is built:

- Pure computations are functions, each with lemmas:
  - a tab update and a history push;
  - a mailbox view and a flag update;
  - the sign-in decision;
  - the sign-up outcome.
- React state that handlers update in place becomes classes: `BrowserApp`, `MailClient` and `MailSite`.
  - Their methods state the new state in terms of those functions.
  - `BrowserApp` keeps `Valid()`: tabs are never empty, ids are unique, the active id names a tab, and indices are in range.
  - `BrowserApp` also keeps `AllAtNewest()`: every history index sits on its newest entry.
- Timers and randomness are explicit:
  - `Navigate` returns a `Pending` record that stands for the navigation in flight.
  - The caller drives it with `Advance`, one timer event at a time.
  - The caller supplies each random increment and the current time.
- The website registry `getWebsiteByDomain` is not part of this model. It is the uninterpreted function `BrowserApp.registry`.

Behaviour of the code worth knowing:

- **Navigation target.** `navigate` acts on the tab that is active when it starts (`Browser.tsx:102-131`). Nothing cancels a navigation in flight, so a slower, older navigation can commit after a newer one.
- **Registry lookup.** The lookup in `navigate` uses the raw input, with no query stripping. Only the lookup of the rendered site (`Browser.tsx:65`) drops the text after `?`.
- **Back and forward.** `goBack` and `goForward` start an ordinary navigation, and its commit pushes a new history entry. So the index never moves back. Every tab's index stays on its newest entry (`AllAtNewest`), and the forward button never acts (`ForwardNeverEnabled`, `BrowserApp.GoForward`).
- **Initial index.** The initial tab with an empty saved history has `historyIndex` 0, not -1 (`Browser.tsx:40`).
- **Star in the open e-mail.** The star button of the open e-mail calls `handleToggleStar` with an empty object as its event (`Mail.tsx:588-590`). The handler's first statement, `e.stopPropagation()` (`Mail.tsx:376`), then throws a `TypeError` before `setEmails` runs, so that button never changes the star (`MailClient.ToggleStarFromPane`). Only the star button of a list row (`Mail.tsx:501-502`) works (`MailClient.ToggleStarOf`).

## Model

| member | source | states |
|---|---|---|
| Text.Trim | src/components/apps/Mail.tsx:108 | `trim()` returns a contiguous piece of the input that neither starts nor ends with whitespace; it is empty exactly when the input is all whitespace |
| Text.ToLower | src/components/apps/Mail.tsx:232-237 | `toLowerCase` keeps the length, leaves no upper-case ASCII letter, keeps every other character, and maps each upper-case letter to its lower-case one |
| Text.ToLowerIdempotent | src/components/apps/Mail.tsx:232-237 | lower-casing twice is the same as lower-casing once |
| Text.Includes | src/components/apps/Mail.tsx:235-237 | `includes` holds exactly when the query occurs at some position |
| Text.NatToString | src/components/apps/Mail.tsx:361 | `toString` of a count is a non-empty string of digits, with a leading zero only for 0 |
| Text.NatToStringRoundTrip | src/components/apps/Mail.tsx:361 | reading the decimal text back gives the count |
| Store.AccountsAt | src/components/apps/Mail.tsx:121-123 | a missing accounts key reads as the empty dictionary |
| Store.MailboxAt | src/components/apps/Mail.tsx:41-53 | a missing global mailbox reads as no e-mails |
| Store.LocalStorage.SetItem | src/websites/sites/ProMail.tsx:84-86 | writing a key replaces that key's value and nothing else |
| Text.PrefixBefore | src/components/apps/Browser.tsx:65 | `split('?')[0]` is a prefix of the URL with no `?` in it, followed in the URL by a `?` unless it is the whole URL |
| Browser.QueryIgnored | src/components/apps/Browser.tsx:63-67 | a query suffix does not change which site a rendered URL shows |
| Browser.SliceTo | src/components/apps/Browser.tsx:150 | `slice(0, end)` is a prefix of the history; its length is `end` clamped to the history length, and a negative `end` counts back from the length, down to 0 |
| Browser.TitleFor | src/components/apps/Browser.tsx:143 | the title is the site name when a site with a non-empty name exists, and the URL otherwise; it is never empty for a non-empty URL |
| Browser.ForwardNeverEnabled | src/components/apps/Browser.tsx:174-190 | with the index on the newest entry, forward is disabled, and back is enabled exactly when there are two or more entries |
| Browser.Apply | src/components/apps/Browser.tsx:107-162 | the loading, progress and commit updates of a tab keep its id, and keep the index in range and on the newest entry |
| Browser.CommitPushes | src/components/apps/Browser.tsx:137-162 | a commit truncates the entries after the index, pushes one entry (`EntryFor`: the URL, its title, the time and the site's colour), and moves the index onto it; the tab then shows that URL, is idle at progress 0, and is titled after the site name or else the URL |
| Browser.CommitAppends | src/components/apps/Browser.tsx:150-159 | with the index on the newest entry, a commit appends exactly one entry |
| Browser.TruncatesForwardEntries | src/components/apps/Browser.tsx:150-159 | with history [A, B, C] and index 0, committing D gives [A, D] with index 1 |
| Browser.OnlyMatchingTabChanges | src/components/apps/Browser.tsx:107-139 | a per-tab update keeps the tab order, the ids and the set of ids; with unique ids, at most one tab changes |
| Browser.Find | src/components/apps/Browser.tsx:46 | the lookup finds the first tab with that id, and finds nothing exactly when no tab has it |
| Browser.RemoveTab | src/components/apps/Browser.tsx:94 | `filter(t => t.id !== tabId)` never grows the list and leaves no tab with that id |
| Browser.RemoveAbsentTab | src/components/apps/Browser.tsx:94 | filtering out an id no tab has changes nothing |
| Browser.RemoveTabExact | src/components/apps/Browser.tsx:94 | with unique ids, closing removes exactly the position of that id and keeps the order of the rest |
| Browser.RemoveTabMembers | src/components/apps/Browser.tsx:94 | the remaining tabs are exactly the tabs whose id differs |
| Browser.RemoveTabKeeps | src/components/apps/Browser.tsx:94 | the index invariants of every tab survive a close |
| Browser.RemoveTabUnique | src/components/apps/Browser.tsx:94 | ids stay unique after a close |
| Browser.CloseKeepsValid | src/components/apps/Browser.tsx:87-100 | closing one of several tabs leaves a non-empty list with one tab fewer when the id existed; the active tab survives unless it was the one closed |
| Browser.InitialTab | src/components/apps/Browser.tsx:32-41 | the first tab restores the saved URL and history; its index is the last entry, or 0 for an empty history |
| Browser.Step | src/components/apps/Browser.tsx:113-130 | one timer event: while ramping it adds the increment and reports the sum, or 75 once the sum reaches 75, and keeps ramping exactly while the sum is below 75; the held phase reports 100; the commit comes exactly from the completing phase, and a finished navigation does nothing more |
| Browser.RunRamp | src/components/apps/Browser.tsx:112-130 | every ramp report is `currentProgress`, the start value plus the increments so far, while that is below 75; the first tick at which it reaches 75 starts the finale 75, 100, commit |
| Browser.RunFinale | src/components/apps/Browser.tsx:116-126 | once the threshold is passed, the events are 75, then 100, then the commit, then nothing |
| Browser.RunShape | src/components/apps/Browser.tsx:112-130 | for any increments in [0, 15), the ramp reports lie at or above the start and below 75, and each is less than 15 above the one before; then come exactly 75, 100 and the commit; reported progress never decreases |
| Browser.BrowserApp.constructor | src/components/apps/Browser.tsx:32-43 | the browser opens with the restored tab active, valid and on its newest entry |
| Browser.BrowserApp.ActiveTab | src/components/apps/Browser.tsx:46 | the active tab is a tab of the list, and it is the tab with the active id when one exists |
| Browser.BrowserApp.ActiveWebsiteIgnoresQuery | src/components/apps/Browser.tsx:63-67 | the shown site is the registry's answer for the rendered URL's domain, whatever query follows the `?` |
| Browser.BrowserApp.AddTab | src/components/apps/Browser.tsx:72-85 | appends one fresh tab at the welcome page, with empty history and index -1, and makes it active |
| Browser.BrowserApp.Navigate | src/components/apps/Browser.tsx:102-111 | the active tab requests the site's domain, or else the raw input (`FinalUrl`), and shows loading at 5; no other tab changes; the navigation in flight records the active tab's id |
| Browser.BrowserApp.UpdateTabProgress | src/components/apps/Browser.tsx:133-135 | sets the progress of the tabs with that id only |
| Browser.BrowserApp.FinishNavigation | src/components/apps/Browser.tsx:137-162 | commits on the tabs with that id only, keeping every invariant |
| Browser.BrowserApp.Advance | src/components/apps/Browser.tsx:112-130 | one timer event moves the navigation to its next phase and applies its report or commit to the recorded tab, whether or not that tab is still active |
| Browser.BrowserApp.CloseTab | src/components/apps/Browser.tsx:87-100 | the only tab is sent to the welcome page instead of being removed; otherwise that id is removed, and a closed active tab passes activity to the last remaining tab |
| Browser.BrowserApp.SwitchTab | src/components/apps/Browser.tsx:209 | clicking a tab makes it active and changes no tab |
| Browser.BrowserApp.SubmitUrl | src/components/apps/Browser.tsx:164-169 | a blank address does nothing; otherwise the trimmed address is navigated to |
| Browser.BrowserApp.Reload | src/components/apps/Browser.tsx:171 | navigates the active tab to the URL it shows |
| Browser.BrowserApp.GoHome | src/components/apps/Browser.tsx:172 | navigates the active tab to the welcome page |
| Browser.BrowserApp.GoBack | src/components/apps/Browser.tsx:174-183 | acts only when the index is above 0, and then navigates to the entry before it; otherwise nothing changes |
| Browser.BrowserApp.GoForward | src/components/apps/Browser.tsx:185-190 | acts only when there is an entry after the index; because every tab's index is on its newest entry, it never acts |
| Mail.Filter | src/components/apps/Mail.tsx:216-239 | a filter keeps exactly the e-mails that pass, each as many times as before, and never grows the list |
| Mail.FilterAppend | src/components/apps/Mail.tsx:216-239 | a filter keeps the input order: filtering a concatenation filters each part in turn |
| Mail.FilterKeepsAll | src/components/apps/Mail.tsx:220-239 | a filter every e-mail passes returns the list unchanged |
| Mail.SortNewestFirst | src/components/apps/Mail.tsx:241-244 | the sort orders by non-increasing timestamp and is a permutation of its input |
| Mail.SortKeepsSorted | src/components/apps/Mail.tsx:241-244 | a list already newest first is returned unchanged |
| Mail.SortStable | src/components/apps/Mail.tsx:241-244 | the sort is stable: the e-mails with any one timestamp keep their input order |
| Mail.SearchIgnoresCase | src/components/apps/Mail.tsx:232-237 | search ignores the case of the query |
| Mail.ShownOrder | src/components/apps/Mail.tsx:216-245 | the shown e-mails with one timestamp are the mailbox's e-mails with that timestamp that pass the search, in their order in the data |
| Mail.FilteredEmailsSpec | src/components/apps/Mail.tsx:216-245 | `FilteredEmails`, the shown list, is newest first and holds exactly the mailbox's e-mails that pass a non-blank search, each as often as in the data; it is a sub-multiset of all e-mails |
| Mail.UnreadCountSpec | src/components/apps/Mail.tsx:350-352 | `UnreadCount` is zero exactly when no e-mail is unread, and never exceeds the inbox size |
| Mail.InboxBadge | src/components/apps/Mail.tsx:350-362 | the badge is absent exactly when the count is 0; otherwise it is the decimal count with no leading zero |
| Mail.OnlyMatchingEmailChanges | src/components/apps/Mail.tsx:368-399 | a flag change (`Flagged`, applied by `UpdateEmails`) alters only its own flag on the e-mails with that id; ids, contents and the other flags stay, and every other e-mail is unchanged |
| Mail.MarkReadIdempotent | src/components/apps/Mail.tsx:368-373 | opening twice is the same as opening once |
| Mail.DeleteIdempotent | src/components/apps/Mail.tsx:384-390 | deleting twice is the same as deleting once |
| Mail.TogglesAreInvolutions | src/components/apps/Mail.tsx:375-399 | two star toggles, or two archive toggles, restore the original list |
| Mail.MarkReadLowersUnread | src/components/apps/Mail.tsx:350-373 | opening an e-mail never raises the unread count, and lowers it when an unread e-mail had that id |
| Mail.Decide | src/components/apps/Mail.tsx:120-175 | the first dictionary holding the address decides the outcome: "Invalid password" on a mismatch, sign-in on a match, and "Account not found" when no dictionary holds it |
| Mail.LoginSpec | src/components/apps/Mail.tsx:104-177 | `Login`: a blank address gives "Please enter your email", then an empty password "Please enter your password"; sign-in succeeds exactly when the address is not blank, the password is not empty, and the first TrustMail, ProMail or legacy dictionary holding the address holds that password; the user is then that address; "Account not found" and "Invalid password" each appear exactly in their case |
| Mail.TrustMailDecidesFirst | src/components/apps/Mail.tsx:120-136 | a TrustMail account shadows any ProMail or legacy account with the same address |
| Mail.DeleteKeepsStaleSelection | src/components/apps/Mail.tsx:384-390 | deleting the only inbox e-mail leaves that deleted e-mail selected, because the new selection is read from the list before the delete |
| Mail.FindEmail | src/components/apps/Mail.tsx:247-249 | the lookup returns the first e-mail of the list with that id, and returns nothing exactly when none has it |
| Mail.MailClient.constructor | src/components/apps/Mail.tsx:61-84 | the client starts signed out, on the inbox, with no e-mails and no selection |
| Mail.MailClient.EditLogin | src/components/apps/Mail.tsx:277-289 | typing sets the form fields; every other field is unchanged |
| Mail.MailClient.HandleLogin | src/components/apps/Mail.tsx:104-177 | the error is cleared; a refusal shows its message and keeps the form; a sign-in sets the user and clears the form |
| Mail.MailClient.OnUserChanged | src/components/apps/Mail.tsx:87-97 | a signed-in user's client loads the global mailbox and selects its first e-mail, if there is one; no other field changes |
| Mail.MailClient.HandleLogout | src/components/apps/Mail.tsx:180-185 | signing out clears the user, the form and the error; the e-mails, selection, mailbox and query are unchanged |
| Mail.MailClient.SelectMailbox | src/components/apps/Mail.tsx:764 | choosing a mailbox changes only the active mailbox; every other field is unchanged |
| Mail.MailClient.SetSearchQuery | src/components/apps/Mail.tsx:468 | typing a search changes only the query; every other field is unchanged |
| Mail.MailClient.SelectedEmail | src/components/apps/Mail.tsx:247-249 | the open e-mail is the first one the list shows with the selected id; there is none exactly when nothing is selected, the id is empty, or no shown e-mail has that id |
| Mail.MailClient.SelectEmail | src/components/apps/Mail.tsx:368-373 | opening selects the id and marks the e-mails with that id read; no other field changes |
| Mail.MailClient.ToggleStarOf | src/components/apps/Mail.tsx:375-382 | the star button of a list row flips the star of the e-mails with that id; every other field is unchanged |
| Mail.MailClient.ToggleStarFromPane | src/components/apps/Mail.tsx:588-590 | the star button of the open e-mail throws in `stopPropagation` before any update, so every field, the e-mails included, is unchanged |
| Mail.MailClient.HandleDelete | src/components/apps/Mail.tsx:384-390 | without a selection nothing happens; otherwise the selected e-mail is marked deleted and the selection moves to the first e-mail shown before the delete; no other field changes |
| Mail.MailClient.HandleArchive | src/components/apps/Mail.tsx:392-399 | without a selection nothing happens; otherwise the selected e-mail's archived flag flips; no other field changes |
| Signup.Domain | src/websites/sites/ProMail.tsx:67 | each domain starts with its only `@` |
| Signup.Validate | src/websites/sites/ProMail.tsx:37-61 | a form passes validation exactly when it is acceptable: a username that is not blank, has no `@` and is at least 3 long, and a password at least 6 long that equals its confirmation |
| Signup.ValidateOrder | src/websites/sites/TrustMail.tsx:37-61 | each message appears exactly when the checks before it pass and its own check fails |
| Signup.UsernameRoundTrip | src/websites/sites/ProMail.tsx:67 | an accepted username is recovered from the address built from it as the part before the first `@` |
| Signup.AddressesDistinct | src/websites/sites/TrustMail.tsx:67 | equal addresses come from the same provider and the same username |
| Signup.WelcomeEmailsFresh | src/websites/sites/ProMail.tsx:88-118 | `WelcomeEmails`, the new mailbox, holds exactly two e-mails, welcome-1 now and job-offer-1 an hour earlier; none is read, starred, archived or deleted |
| Signup.CreatedEmail | src/websites/sites/ProMail.tsx:25-31 | without a global account the created address reads as empty |
| Signup.Register | src/websites/sites/ProMail.tsx:63-84 | a registration is made under the username followed by the provider's domain |
| Signup.RegisterRejects | src/websites/sites/ProMail.tsx:37-75 | a sign-up is refused exactly when validation fails, with the first failing message, or when the address is taken, with "This username is already registered" |
| Signup.RegisterInsertsOneAccount | src/websites/sites/TrustMail.tsx:70-84 | a registration inserts exactly one new key, the address, with the submitted password; the other accounts, and the other dictionaries, are unchanged |
| Signup.RegisterSetsGlobals | src/websites/sites/ProMail.tsx:84-237 | a registration records the address as the global account and replaces the global mailbox with the welcome e-mails; no other key changes |
| Signup.MailSite.constructor | src/websites/sites/ProMail.tsx:16-22 | a site opens on its home page with an empty form and no error |
| Signup.MailSite.EditForm | src/websites/sites/ProMail.tsx:510-552 | typing changes only the form |
| Signup.MailSite.HandleSignUp | src/websites/sites/ProMail.tsx:33-245 | a refusal sets only the error and leaves the store as it was; a registration writes the store, clears the error, shows the address in the form and moves to the success page |
| Signup.MailSite.HandleHome | src/websites/sites/ProMail.tsx:247-256 | goes to the notice page when a global account exists, with that address, and home otherwise; the form and the error are cleared |
| Signup.MailSite.GetStarted | src/websites/sites/ProMail.tsx:435-442 | goes to the notice page when a global account exists, and to the sign-up form otherwise |
| Signup.MailSite.BackFromNotice | src/websites/sites/ProMail.tsx:297 | the notice page's back button goes home |
| Signup.MailSite.BackFromRegisteredHome | src/websites/sites/ProMail.tsx:356-358 | the registered user's home page goes home with an empty form |
| Flows.RegisteredAccount | src/websites/sites/TrustMail.tsx:63-86 | a registered address is not blank; it carries a password of at least 6 characters in the dictionary the client checks; a ProMail registration leaves the TrustMail dictionary unchanged |
| Flows.SignUpThenLogin | src/components/apps/Mail.tsx:104-177 | right after a sign-up, the client signs in with the new address and password; a ProMail address must not also be a TrustMail key |
| Flows.WelcomeInbox | src/components/apps/Mail.tsx:216-362 | a fresh mailbox shows both welcome e-mails in the inbox, newest first, with two unread and the badge "2" |

## Left out

- Rendering is not modelled. This covers JSX, styling, icons, the responsive sidebar and compact layout, `formatTime` (which reads the wall clock) and `formatFileSize` (floating-point formatting).
- JSON encoding of the store is not modelled. Each key holds a decoded `Value`, and a key holding something else reads as missing. Malformed JSON is not modelled.
- The `useSessionStorage` and `useAppStorage` hooks are not modelled. State they persist is a plain field.
- The browser's persistence-sync effect is not modelled. This is `Browser.tsx:53-61`, which writes the active tab's URL and history back to app storage.
- The address-bar text sync is not modelled (`Browser.tsx:48-50`). The submitted address is the argument of `SubmitUrl`.
- Timer delays (50, 600, 200, 600 and 1500 ms) are not modelled, and neither is `Math.random`. Timer events are the `Advance` steps, and each increment is an argument.
- `Browser.BrowserApp.Advance`: it does not model cancellation, because the code has none. A navigation in flight for a closed tab, or for a tab that has since started a newer navigation, still applies its effects. This is proved as stated, not excluded.
- Tab ids come from `Date.now()` in the code. Here they are an argument of `AddTab`, which requires them to be fresh.
- `getWebsiteByDomain` is not part of this model. It is an uninterpreted function of the browser. Site security levels and page contents are not modelled.
- The 600 ms sign-in delay and the `authLoading` and `loading` spinner flags are not modelled. The sign-in and the sign-up take effect at once.
- Password visibility toggles are not modelled.
- The Markdown bodies and attachment texts of the welcome e-mails are not reproduced. They are the placeholder `WelcomeText`. Every other field, including ids, senders, subjects, timestamps and attachment metadata, follows the code, with one exception. The code gives welcome-1 no `attachments` field, and the model gives it an empty list. The client shows attachments only when the list is present and non-empty (`Mail.tsx:550`, `Mail.tsx:681-682`), so both read the same.
- Creation times are arguments (`createdAt`, `now`). This covers `new Date().toISOString()` and `Date.now()`.
- `Text.ToLower` maps only ASCII letters. JavaScript's `toLowerCase` also maps other Unicode letters.
- String lengths count Unicode scalar values. JavaScript counts UTF-16 code units, so the counts differ only outside the Basic Multilingual Plane.
- Dictionary lookups do not model JavaScript's inherited object keys. In the code, an address such as `constructor` reads as present.
- Progress values are exact `real` numbers. In the code they are JavaScript floating-point numbers, so the sum of the `Math.random() * 15` increments may round differently near the 75 threshold (`Browser.tsx:114-116`).
- The e-mail sort assumes valid timestamps. `Date` values that are `NaN` are not modelled.
- `Music.tsx` and the notification, markdown and file-system services are not modelled.
