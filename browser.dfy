/**
 * The simulated browser application: a list of tabs with an active tab,
 * per-tab navigation history, and the fake three-phase loading animation
 * that ends in a navigation commit.
 *
 * The registry of virtual websites (`getWebsiteByDomain`) is not part of
 * this model; it is the uninterpreted function `registry` of the browser.
 */
module Browser {
  import opened Wrappers
  import Text

  /** A virtual website descriptor as the registry returns it. */
  datatype Website = Website(domain: string, name: string, color: string)

  type Registry = string -> Option<Website>

  /** One visited page; `timestamp` is the commit time, `favicon` the site's colour. */
  datatype HistoryEntry = HistoryEntry(url: string, title: string, timestamp: int, favicon: Option<string>)

  /**
   * A browser tab. `url` is what was requested last, `renderedUrl` what is
   * on screen; `historyIndex` points into `history` (-1 for a fresh tab).
   */
  datatype Tab = Tab(
    id: string,
    url: string,
    renderedUrl: string,
    title: string,
    isLoading: bool,
    progress: real,
    history: seq<HistoryEntry>,
    historyIndex: int)

  /** The home page every new tab shows. */
  const Welcome: string := "browser://welcome"

  // ---------------------------------------------------------------------------
  // Address resolution

  /** `u.split('?')[0]`: everything before the first question mark. */
  function StripQuery(u: string): string {
    Text.PrefixBefore(u, '?')
  }

  /** A query suffix never changes which site a rendered URL shows. */
  lemma QueryIgnored(d: string, q: string)
    requires '?' !in d
    ensures StripQuery(d + "?" + q) == d
    ensures StripQuery(d) == d
  {
    Text.PrefixBeforeSeparator(d, '?', q);
  }

  /** `website ? website.domain : url`: the canonical domain of a known site, else the raw input. */
  function FinalUrl(site: Option<Website>, input: string): string {
    if site.Some? then site.value.domain else input
  }

  /** `website?.name || url`: an empty or missing site name falls back to the URL. */
  function TitleFor(site: Option<Website>, url: string): (r: string)
    ensures r == url || (site.Some? && r == site.value.name)
    ensures site.Some? && site.value.name != "" ==> r == site.value.name
    ensures site.None? || site.value.name == "" ==> r == url
    ensures url != [] ==> r != []
  {
    if site.Some? && site.value.name != "" then site.value.name else url
  }

  function EntryFor(url: string, site: Option<Website>, now: int): HistoryEntry {
    HistoryEntry(url, TitleFor(site, url), now, if site.Some? then Some(site.value.color) else None)
  }

  /** `s.slice(0, end)` with JavaScript's clamping of `end`. */
  function SliceTo<T>(s: seq<T>, end: int): (r: seq<T>)
    ensures r <= s
    ensures 0 <= end ==> |r| == if end < |s| then end else |s|
    ensures end < 0 ==> |r| == if |s| + end <= 0 then 0 else |s| + end
  {
    if end < 0 then (if |s| + end <= 0 then [] else s[..|s| + end])
    else if end < |s| then s[..end]
    else s
  }

  // ---------------------------------------------------------------------------
  // History invariants

  /** The index is -1, or 0 with an empty history, or an index of `history`. */
  predicate IndexInRange(t: Tab) {
    && -1 <= t.historyIndex
    && (t.history == [] ==> t.historyIndex <= 0)
    && (t.history != [] ==> t.historyIndex < |t.history|)
  }

  /** The index points at the newest entry (-1 or 0 when there is none). */
  predicate AtNewest(t: Tab) {
    if t.history == [] then t.historyIndex == -1 || t.historyIndex == 0
    else t.historyIndex == |t.history| - 1
  }

  /** The back button is enabled (`historyIndex > 0`). */
  predicate CanGoBack(t: Tab) {
    t.historyIndex > 0
  }

  /** The forward button is enabled (`historyIndex < history.length - 1`). */
  predicate CanGoForward(t: Tab) {
    t.historyIndex < |t.history| - 1
  }

  /** A tab whose index is at the newest entry never has a forward entry to go to. */
  lemma ForwardNeverEnabled(t: Tab)
    requires AtNewest(t)
    ensures !CanGoForward(t)
    ensures CanGoBack(t) <==> |t.history| >= 2
  {
  }

  // ---------------------------------------------------------------------------
  // Updates of one tab

  datatype TabUpdate =
    | StartLoading(finalUrl: string)
    | SetProgress(progress: real)
    | Commit(url: string, site: Option<Website>, now: int)

  /**
   * The new value of a tab under an update: the loading state of `navigate`,
   * the progress of `updateTabProgress`, or the commit of `finishNavigation`.
   */
  function Apply(u: TabUpdate, t: Tab): (r: Tab)
    ensures r.id == t.id
    ensures IndexInRange(t) ==> IndexInRange(r)
    ensures AtNewest(t) ==> AtNewest(r)
  {
    match u
    case StartLoading(finalUrl) => t.(url := finalUrl, isLoading := true, progress := 5.0)
    case SetProgress(p) => t.(progress := p)
    case Commit(url, site, now) =>
      var h := SliceTo(t.history, t.historyIndex + 1) + [EntryFor(url, site, now)];
      t.(isLoading := false, progress := 0.0, renderedUrl := url, title := TitleFor(site, url),
         history := h, historyIndex := |h| - 1)
  }

  /**
   * `finishNavigation` on one tab: forward entries past the index are cut,
   * one entry for `url` is pushed and the index moves onto it; the tab then
   * shows `url`, is idle at progress 0 and is titled after the site.
   */
  lemma CommitPushes(t: Tab, url: string, site: Option<Website>, now: int)
    requires IndexInRange(t)
    ensures var c := Apply(Commit(url, site, now), t);
      && c.history == t.history[..if t.historyIndex + 1 < |t.history| then t.historyIndex + 1 else |t.history|]
                      + [EntryFor(url, site, now)]
      && c.historyIndex == |c.history| - 1
      && 0 <= c.historyIndex < |c.history|
      && c.history[c.historyIndex].url == c.renderedUrl == url
      && c.history[c.historyIndex].title == c.title == TitleFor(site, url)
      && !c.isLoading && c.progress == 0.0
      && c.id == t.id && c.url == t.url
  {
  }

  /** While the index sits at the newest entry, a commit only appends to the history. */
  lemma CommitAppends(t: Tab, url: string, site: Option<Website>, now: int)
    requires AtNewest(t)
    ensures Apply(Commit(url, site, now), t).history == t.history + [EntryFor(url, site, now)]
  {
  }

  /** Worked example: with the index at 0 of [A, B, C], committing D leaves [A, D]. */
  lemma TruncatesForwardEntries(a: HistoryEntry, b: HistoryEntry, c: HistoryEntry, t: Tab, now: int)
    requires t.history == [a, b, c] && t.historyIndex == 0
    ensures Apply(Commit("d", None, now), t).history == [a, EntryFor("d", None, now)]
    ensures Apply(Commit("d", None, now), t).historyIndex == 1
  {
  }

  /** `prev.map(t => t.id === id ? update(t) : t)`. */
  function ReplaceTab(tabs: seq<Tab>, id: string, u: TabUpdate): (r: seq<Tab>)
    ensures |r| == |tabs|
    ensures forall i :: 0 <= i < |tabs| ==> r[i] == if tabs[i].id == id then Apply(u, tabs[i]) else tabs[i]
  {
    seq(|tabs|, i requires 0 <= i < |tabs| => if tabs[i].id == id then Apply(u, tabs[i]) else tabs[i])
  }

  predicate UniqueIds(tabs: seq<Tab>) {
    forall i, j :: 0 <= i < j < |tabs| ==> tabs[i].id != tabs[j].id
  }

  predicate HasId(tabs: seq<Tab>, id: string) {
    exists i :: 0 <= i < |tabs| && tabs[i].id == id
  }

  /**
   * A per-tab update changes only the tab with that id: the order and the
   * ids of the tabs stay, every other tab is unchanged, and with unique ids
   * at most one position differs.
   */
  lemma {:induction false} OnlyMatchingTabChanges(tabs: seq<Tab>, id: string, u: TabUpdate)
    ensures var r := ReplaceTab(tabs, id, u);
      && (forall i :: 0 <= i < |tabs| ==> r[i].id == tabs[i].id)
      && (forall i :: 0 <= i < |tabs| && tabs[i].id != id ==> r[i] == tabs[i])
      && (UniqueIds(tabs) ==> forall i, j :: 0 <= i < j < |tabs| && r[i] != tabs[i] ==> r[j] == tabs[j])
      && (UniqueIds(r) <==> UniqueIds(tabs))
      && (forall x :: HasId(r, x) <==> HasId(tabs, x))
  {
    var r := ReplaceTab(tabs, id, u);
    forall x
      ensures HasId(r, x) <==> HasId(tabs, x)
    {
      if HasId(r, x) {
        var i :| 0 <= i < |r| && r[i].id == x;
        assert tabs[i].id == x;
      }
      if HasId(tabs, x) {
        var i :| 0 <= i < |tabs| && tabs[i].id == x;
        assert r[i].id == x;
      }
    }
  }

  /** `tabs.findIndex(t => t.id === id)`, as an optional index. */
  function Find(tabs: seq<Tab>, id: string): (r: Option<nat>)
    ensures r.Some? ==> r.value < |tabs| && tabs[r.value].id == id
    ensures r.Some? ==> forall j :: 0 <= j < r.value ==> tabs[j].id != id
    ensures r.None? <==> !HasId(tabs, id)
  {
    if tabs == [] then None
    else if tabs[0].id == id then Some(0)
    else match Find(tabs[1..], id)
      case Some(i) => Some(i + 1)
      case None =>
        assert forall j :: 1 <= j < |tabs| ==> tabs[j] == tabs[1..][j - 1];
        None
  }

  /** `tabs.filter(t => t.id !== id)`. */
  function RemoveTab(tabs: seq<Tab>, id: string): (r: seq<Tab>)
    ensures |r| <= |tabs|
    ensures forall i :: 0 <= i < |r| ==> r[i].id != id
  {
    if tabs == [] then []
    else if tabs[0].id == id then RemoveTab(tabs[1..], id)
    else [tabs[0]] + RemoveTab(tabs[1..], id)
  }

  lemma {:induction false} HasIdTail(tabs: seq<Tab>, id: string)
    requires tabs != []
    ensures HasId(tabs, id) <==> tabs[0].id == id || HasId(tabs[1..], id)
  {
    if HasId(tabs[1..], id) {
      var i :| 0 <= i < |tabs| - 1 && tabs[1..][i].id == id;
      assert tabs[i + 1].id == id;
    }
    if HasId(tabs, id) && tabs[0].id != id {
      var i :| 0 <= i < |tabs| && tabs[i].id == id;
      assert tabs[1..][i - 1].id == id;
    }
  }

  /** Closing an id no tab has leaves the tabs as they are. */
  lemma {:induction false} RemoveAbsentTab(tabs: seq<Tab>, id: string)
    requires !HasId(tabs, id)
    ensures RemoveTab(tabs, id) == tabs
  {
    if tabs != [] {
      HasIdTail(tabs, id);
      RemoveAbsentTab(tabs[1..], id);
      assert tabs == [tabs[0]] + tabs[1..];
    }
  }

  /**
   * Closing a tab removes exactly the tab with that id (ids being unique):
   * just that position, the others keeping their order.
   */
  lemma {:induction false} RemoveTabExact(tabs: seq<Tab>, id: string)
    requires UniqueIds(tabs) && HasId(tabs, id)
    ensures var k := Find(tabs, id).value;
      RemoveTab(tabs, id) == tabs[..k] + tabs[k + 1..]
  {
    var rest := tabs[1..];
    HasIdTail(tabs, id);
    assert UniqueIds(rest);
    if tabs[0].id == id {
      assert !HasId(rest, id);
      RemoveAbsentTab(rest, id);
    } else {
      RemoveTabExact(rest, id);
      var k := Find(rest, id).value;
      assert Find(tabs, id).value == k + 1;
      assert [tabs[0]] + (rest[..k] + rest[k + 1..]) == tabs[..k + 1] + tabs[k + 2..];
    }
  }

  /** What is left after closing: the tabs whose id differs. */
  lemma {:induction false} RemoveTabMembers(tabs: seq<Tab>, id: string)
    ensures forall t :: t in RemoveTab(tabs, id) <==> t in tabs && t.id != id
  {
    if tabs != [] {
      RemoveTabMembers(tabs[1..], id);
      assert tabs == [tabs[0]] + tabs[1..];
    }
  }

  /** Whatever holds of every tab holds of every tab left after closing one. */
  lemma RemoveTabKeeps(tabs: seq<Tab>, id: string)
    ensures (forall i :: 0 <= i < |tabs| ==> IndexInRange(tabs[i])) ==>
      forall i :: 0 <= i < |RemoveTab(tabs, id)| ==> IndexInRange(RemoveTab(tabs, id)[i])
    ensures (forall i :: 0 <= i < |tabs| ==> AtNewest(tabs[i])) ==>
      forall i :: 0 <= i < |RemoveTab(tabs, id)| ==> AtNewest(RemoveTab(tabs, id)[i])
  {
    RemoveTabMembers(tabs, id);
    var r := RemoveTab(tabs, id);
    forall i | 0 <= i < |r| ensures exists j :: 0 <= j < |tabs| && tabs[j] == r[i] {
      assert r[i] in tabs;
    }
  }

  /** Removing tabs keeps the remaining ids unique. */
  lemma {:induction false} RemoveTabUnique(tabs: seq<Tab>, id: string)
    requires UniqueIds(tabs)
    ensures UniqueIds(RemoveTab(tabs, id))
  {
    if tabs != [] {
      var rest := tabs[1..];
      assert UniqueIds(rest);
      RemoveTabUnique(rest, id);
      RemoveTabMembers(rest, id);
      var r := RemoveTab(rest, id);
      forall t | t in r ensures t.id != tabs[0].id {
        var i :| 0 <= i < |rest| && rest[i] == t;
        assert tabs[i + 1] == t;
      }
    }
  }

  /**
   * Closing one of several tabs leaves at least one, with unique ids and
   * in-range indices, and the active tab survives unless it was the one closed.
   */
  lemma CloseKeepsValid(tabs: seq<Tab>, id: string, active: string)
    requires |tabs| > 1 && UniqueIds(tabs) && HasId(tabs, active)
    requires forall i :: 0 <= i < |tabs| ==> IndexInRange(tabs[i])
    ensures var r := RemoveTab(tabs, id);
      && r != [] && UniqueIds(r)
      && |r| == |tabs| - (if HasId(tabs, id) then 1 else 0)
      && (id != active ==> HasId(r, active))
      && (forall i :: 0 <= i < |r| ==> IndexInRange(r[i]))
      && ((forall i :: 0 <= i < |tabs| ==> AtNewest(tabs[i])) ==> forall i :: 0 <= i < |r| ==> AtNewest(r[i]))
  {
    RemoveTabUnique(tabs, id);
    RemoveTabKeeps(tabs, id);
    CloseKeepsActive(tabs, id, active);
  }

  /** Closing a tab removes one tab when the id exists, and keeps every other active tab. */
  lemma CloseKeepsActive(tabs: seq<Tab>, id: string, active: string)
    requires UniqueIds(tabs) && HasId(tabs, active)
    ensures var r := RemoveTab(tabs, id);
      && |r| == |tabs| - (if HasId(tabs, id) then 1 else 0)
      && (id != active ==> HasId(r, active))
  {
    var r := RemoveTab(tabs, id);
    var a :| 0 <= a < |tabs| && tabs[a].id == active;
    if HasId(tabs, id) {
      RemoveTabExact(tabs, id);
      var k := Find(tabs, id).value;
      if id != active {
        assert r[if a < k then a else a - 1] == tabs[a];
      }
    } else {
      RemoveAbsentTab(tabs, id);
      assert r[a] == tabs[a];
    }
  }

  /** The tab `addTab` opens: at the home page, with an empty history. */
  function NewTab(id: string): Tab {
    Tab(id, Welcome, Welcome, "New Tab", false, 0.0, [], -1)
  }

  /**
   * The tab the browser opens with, restored from the saved URL and history:
   * `historyIndex` is `(history.length || 1) - 1`.
   */
  function InitialTab(savedUrl: string, savedHistory: seq<HistoryEntry>): (t: Tab)
    ensures savedHistory != [] ==> t.historyIndex == |savedHistory| - 1
    ensures savedHistory == [] ==> t.historyIndex == 0
    ensures AtNewest(t) && IndexInRange(t)
    ensures t.url == t.renderedUrl == savedUrl && t.history == savedHistory
  {
    Tab("default", savedUrl, savedUrl, "Welcome", false, 0.0, savedHistory,
        (if |savedHistory| == 0 then 1 else |savedHistory|) - 1)
  }

  // ---------------------------------------------------------------------------
  // The loading simulation

  /**
   * Where a navigation in flight stands: ramping up with the running value
   * `current`, held at 75, at 100 waiting for the commit, or committed.
   */
  datatype Phase = Ramping(current: real) | Stalled | Completing | Done

  /** What one timer event does to the tab: report a progress value, commit, or nothing. */
  datatype Effect = Report(progress: real) | CommitPage | Nothing

  /** A navigation in flight, with the tab id, target and site captured when it started. */
  datatype Pending = Pending(tabId: string, finalUrl: string, site: Option<Website>, phase: Phase)

  /**
   * One timer event. While ramping, `inc` (the random increment) is added;
   * at 75 or more the interval stops and 75 is reported; the next timeout
   * reports 100 and the one after commits.
   */
  function Step(phase: Phase, inc: real): (r: (Phase, Effect))
    ensures phase.Ramping? ==> r.1.Report? && r.1.progress <= 75.0 && (r.1.progress < 75.0 <==> r.0.Ramping?)
    ensures phase.Ramping? && r.0.Ramping? ==> r.0.current == r.1.progress
    ensures r.1 == CommitPage <==> phase == Completing
    ensures r.1 == Nothing <==> phase == Done
    ensures phase == Done ==> r.0 == Done
    ensures phase.Ramping? ==> r.1 == Report(if phase.current + inc >= 75.0 then 75.0 else phase.current + inc)
    ensures phase == Stalled ==> r == (Completing, Report(100.0))
  {
    match phase
    case Ramping(c) =>
      if c + inc >= 75.0 then (Stalled, Report(75.0)) else (Ramping(c + inc), Report(c + inc))
    case Stalled => (Completing, Report(100.0))
    case Completing => (Done, CommitPage)
    case Done => (Done, Nothing)
  }

  /** The effects of a sequence of timer events, each with its increment. */
  function Run(phase: Phase, incs: seq<real>): (r: seq<Effect>)
    ensures |r| == |incs|
    decreases |incs|
  {
    if incs == [] then [] else [Step(phase, incs[0]).1] + Run(Step(phase, incs[0]).0, incs[1..])
  }

  /** The effects after the threshold: 75, 100, the commit, then nothing more. */
  function Finale(k: nat): Effect {
    if k == 0 then Report(75.0) else if k == 1 then Report(100.0) else if k == 2 then CommitPage else Nothing
  }

  function FinalePhase(k: nat): Phase
    requires k >= 1
  {
    if k == 1 then Stalled else if k == 2 then Completing else Done
  }

  /** `Math.random() * 15` for every tick. */
  predicate Increments(incs: seq<real>) {
    forall i :: 0 <= i < |incs| ==> 0.0 <= incs[i] < 15.0
  }

  lemma {:induction false} RunFinale(k: nat, incs: seq<real>)
    requires k >= 1
    ensures forall i :: 0 <= i < |incs| ==> Run(FinalePhase(k), incs)[i] == Finale(i + k)
    decreases |incs|
  {
    if incs != [] {
      assert Step(FinalePhase(k), incs[0]).0 == FinalePhase(k + 1);
      RunFinale(k + 1, incs[1..]);
    }
  }

  /** The sum of the increments. */
  function Sum(s: seq<real>): real {
    if s == [] then 0.0 else s[0] + Sum(s[1..])
  }

  /** `currentProgress` after tick `i`: the start value plus the first `i + 1` increments. */
  function Level(c: real, incs: seq<real>, i: nat): real
    requires i < |incs|
  {
    c + Sum(incs[..i + 1])
  }

  /** After the first tick, the running value is the start value plus the first increment. */
  lemma LevelFirst(c: real, incs: seq<real>)
    requires incs != []
    ensures Level(c, incs, 0) == c + incs[0]
  {
    var p := incs[..1];
    assert p[0] == incs[0] && p[1..] == [];
    assert Sum(p) == p[0] + Sum(p[1..]);
  }

  /** After the first tick, the running value is that of a ramp starting one increment higher. */
  lemma LevelShift(c: real, incs: seq<real>, i: nat)
    requires 1 <= i < |incs|
    ensures Level(c, incs, i) == Level(c + incs[0], incs[1..], i - 1)
  {
    assert incs[..i + 1][1..] == incs[1..][..i];
  }

  /**
   * The ramp follows the running value: tick `i` reports `currentProgress`
   * after `i + 1` increments for as long as that stays below 75, and the
   * first tick at which it reaches 75 or more starts the finale 75, 100,
   * commit. `k` is the number of ramp reports.
   */
  lemma {:induction false} RunRamp(c: real, incs: seq<real>) returns (k: nat)
    ensures k <= |incs|
    ensures forall i :: 0 <= i < k ==> Level(c, incs, i) < 75.0 && Run(Ramping(c), incs)[i] == Report(Level(c, incs, i))
    ensures k < |incs| ==> Level(c, incs, k) >= 75.0
    ensures forall i :: k <= i < |incs| ==> Run(Ramping(c), incs)[i] == Finale(i - k)
    decreases |incs|
  {
    var r := Run(Ramping(c), incs);
    if incs == [] {
      k := 0;
    } else if c + incs[0] >= 75.0 {
      k := 0;
      LevelFirst(c, incs);
      assert FinalePhase(1) == Stalled;
      RunFinale(1, incs[1..]);
      assert forall i :: 1 <= i < |r| ==> r[i] == Run(Stalled, incs[1..])[i - 1];
    } else {
      var c' := c + incs[0];
      var k' := RunRamp(c', incs[1..]);
      k := k' + 1;
      var r' := Run(Ramping(c'), incs[1..]);
      assert r == [Report(c')] + r';
      LevelFirst(c, incs);
      forall i | 1 <= i < |incs|
        ensures Level(c, incs, i) == Level(c', incs[1..], i - 1) && r[i] == r'[i - 1]
      {
        LevelShift(c, incs, i);
      }
    }
  }

  /**
   * The shape of every loading animation, whatever the random increments:
   * first `k` ramp reports, each at least the start value, strictly below 75,
   * and each less than 15 above the one before; then exactly 75, 100, the
   * commit, and nothing after it. Reported values never decrease.
   */
  lemma {:induction false} RunShape(c: real, incs: seq<real>) returns (k: nat)
    requires 5.0 <= c < 75.0 && Increments(incs)
    ensures var r := Run(Ramping(c), incs);
      && k <= |r|
      && (forall i :: 0 <= i < k ==> r[i].Report? && c <= r[i].progress < 75.0)
      && (0 < k ==> r[0].progress < c + 15.0)
      && (forall i :: 0 < i < k ==> r[i - 1].progress <= r[i].progress < r[i - 1].progress + 15.0)
      && (forall i :: k <= i < |r| ==> r[i] == Finale(i - k))
      && (forall i, j :: 0 <= i < j < |r| && r[i].Report? && r[j].Report? ==> r[i].progress <= r[j].progress)
    decreases |incs|
  {
    var r := Run(Ramping(c), incs);
    if incs == [] {
      k := 0;
    } else if c + incs[0] >= 75.0 {
      k := 0;
      assert FinalePhase(1) == Stalled;
      RunFinale(1, incs[1..]);
      assert forall i :: 1 <= i < |r| ==> r[i] == Run(Stalled, incs[1..])[i - 1];
    } else {
      var c' := c + incs[0];
      assert Increments(incs[1..]) by {
        assert forall i :: 0 <= i < |incs| - 1 ==> incs[1..][i] == incs[i + 1];
      }
      var k' := RunShape(c', incs[1..]);
      k := k' + 1;
      var r' := Run(Ramping(c'), incs[1..]);
      assert r == [Report(c')] + r';
      assert forall i :: 1 <= i < |r| ==> r[i] == r'[i - 1];
    }
  }

  // ---------------------------------------------------------------------------
  // The browser

  class BrowserApp {
    const registry: Registry
    var tabs: seq<Tab>
    var activeTabId: string

    /** Tabs are never empty, ids are unique, the active id names a tab, indices are in range. */
    ghost predicate Valid()
      reads this
    {
      && tabs != []
      && UniqueIds(tabs)
      && HasId(tabs, activeTabId)
      && forall i :: 0 <= i < |tabs| ==> IndexInRange(tabs[i])
    }

    /** Every tab's history index is at its newest entry. */
    ghost predicate AllAtNewest()
      reads this
    {
      forall i :: 0 <= i < |tabs| ==> AtNewest(tabs[i])
    }

    /** The browser as it opens, with one tab restored from the saved URL and history. */
    constructor (registry: Registry, savedUrl: string, savedHistory: seq<HistoryEntry>)
      ensures Valid() && AllAtNewest()
      ensures this.registry == registry
      ensures tabs == [InitialTab(savedUrl, savedHistory)] && activeTabId == "default"
    {
      this.registry := registry;
      tabs := [InitialTab(savedUrl, savedHistory)];
      activeTabId := "default";
      new;
      assert tabs[0].id == activeTabId;
    }

    /** `tabs.find(t => t.id === activeTabId) || tabs[0]`. */
    function ActiveTab(): (t: Tab)
      reads this
      requires tabs != []
      ensures t in tabs
      ensures HasId(tabs, activeTabId) ==> t.id == activeTabId
    {
      match Find(tabs, activeTabId)
      case Some(i) => tabs[i]
      case None => tabs[0]
    }

    /** The site shown: the rendered URL, stripped of its query, looked up in the registry. */
    function ActiveWebsite(): Option<Website>
      reads this
      requires tabs != []
    {
      registry(StripQuery(ActiveTab().renderedUrl))
    }

    /** The site shown ignores any query on the rendered URL. */
    lemma ActiveWebsiteIgnoresQuery(d: string, q: string)
      requires tabs != [] && '?' !in d && ActiveTab().renderedUrl == d + "?" + q
      ensures ActiveWebsite() == registry(d)
    {
      QueryIgnored(d, q);
    }

    /** Opens a new tab at the home page after the others and makes it active. */
    method AddTab(id: string)
      requires Valid() && !HasId(tabs, id)
      modifies this
      ensures Valid() && (old(AllAtNewest()) ==> AllAtNewest())
      ensures tabs == old(tabs) + [NewTab(id)] && |tabs| == old(|tabs|) + 1
      ensures activeTabId == id && ActiveTab() == NewTab(id)
    {
      tabs := tabs + [NewTab(id)];
      activeTabId := id;
      assert tabs[|tabs| - 1].id == id;
      assert forall i :: 0 <= i < |tabs| - 1 ==> tabs[i] == old(tabs)[i];
    }

    /**
     * Starts a navigation of the active tab: a registered site's input
     * becomes its domain, the tab shows the loading state at 5, and the
     * navigation in flight remembers the active tab's id.
     */
    method Navigate(input: string) returns (job: Pending)
      requires Valid()
      modifies this
      ensures Valid() && (old(AllAtNewest()) ==> AllAtNewest())
      ensures activeTabId == old(activeTabId)
      ensures job == Pending(activeTabId, FinalUrl(registry(input), input), registry(input), Ramping(5.0))
      ensures tabs == ReplaceTab(old(tabs), activeTabId, StartLoading(job.finalUrl))
      ensures ActiveTab().url == job.finalUrl && ActiveTab().isLoading && ActiveTab().progress == 5.0
    {
      var website := registry(input);
      var finalUrl := FinalUrl(website, input);
      tabs := ReplaceTab(tabs, activeTabId, StartLoading(finalUrl));
      OnlyMatchingTabChanges(old(tabs), activeTabId, StartLoading(finalUrl));
      job := Pending(activeTabId, finalUrl, website, Ramping(5.0));
    }

    /** Sets the progress of the tab with that id; no other tab changes. */
    method UpdateTabProgress(tabId: string, progress: real)
      requires Valid()
      modifies this
      ensures Valid() && (old(AllAtNewest()) ==> AllAtNewest())
      ensures activeTabId == old(activeTabId)
      ensures tabs == ReplaceTab(old(tabs), tabId, SetProgress(progress))
    {
      tabs := ReplaceTab(tabs, tabId, SetProgress(progress));
      OnlyMatchingTabChanges(old(tabs), tabId, SetProgress(progress));
    }

    /** Commits a navigation on the tab with that id; no other tab changes. */
    method FinishNavigation(tabId: string, url: string, site: Option<Website>, now: int)
      requires Valid()
      modifies this
      ensures Valid() && (old(AllAtNewest()) ==> AllAtNewest())
      ensures activeTabId == old(activeTabId)
      ensures tabs == ReplaceTab(old(tabs), tabId, Commit(url, site, now))
    {
      tabs := ReplaceTab(tabs, tabId, Commit(url, site, now));
      OnlyMatchingTabChanges(old(tabs), tabId, Commit(url, site, now));
    }

    /**
     * One timer event of a navigation in flight, applied to the tab captured
     * when it started (which need not be the active tab any more, nor exist).
     */
    method Advance(job: Pending, inc: real, now: int) returns (next: Pending)
      requires Valid()
      modifies this
      ensures Valid() && (old(AllAtNewest()) ==> AllAtNewest())
      ensures activeTabId == old(activeTabId)
      ensures next == job.(phase := Step(job.phase, inc).0)
      ensures tabs == match Step(job.phase, inc).1
        case Report(p) => ReplaceTab(old(tabs), job.tabId, SetProgress(p))
        case CommitPage => ReplaceTab(old(tabs), job.tabId, Commit(job.finalUrl, job.site, now))
        case Nothing => old(tabs)
    {
      match job.phase
      case Ramping(current) =>
        var currentProgress := current + inc;
        if currentProgress >= 75.0 {
          UpdateTabProgress(job.tabId, 75.0);
          next := job.(phase := Stalled);
        } else {
          UpdateTabProgress(job.tabId, currentProgress);
          next := job.(phase := Ramping(currentProgress));
        }
      case Stalled =>
        UpdateTabProgress(job.tabId, 100.0);
        next := job.(phase := Completing);
      case Completing =>
        FinishNavigation(job.tabId, job.finalUrl, job.site, now);
        next := job.(phase := Done);
      case Done =>
        next := job;
    }

    /**
     * Closes a tab. The only tab is never removed: it is sent home instead.
     * Otherwise the tab with that id is removed, and if it was active the
     * last remaining tab becomes active.
     */
    method CloseTab(tabId: string) returns (job: Option<Pending>)
      requires Valid()
      modifies this
      ensures Valid() && (old(AllAtNewest()) ==> AllAtNewest())
      ensures old(|tabs|) == 1 ==>
        && job == Some(Pending(activeTabId, FinalUrl(registry(Welcome), Welcome), registry(Welcome), Ramping(5.0)))
        && activeTabId == old(activeTabId)
        && tabs == ReplaceTab(old(tabs), activeTabId, StartLoading(job.value.finalUrl))
      ensures old(|tabs|) > 1 ==>
        && job == None
        && tabs == RemoveTab(old(tabs), tabId)
        && |tabs| == old(|tabs|) - (if HasId(old(tabs), tabId) then 1 else 0)
        && activeTabId == (if tabId == old(activeTabId) then tabs[|tabs| - 1].id else old(activeTabId))
    {
      if |tabs| == 1 {
        var j := Navigate(Welcome);
        job := Some(j);
        return;
      }
      job := None;
      var newTabs := RemoveTab(tabs, tabId);
      CloseKeepsValid(tabs, tabId, activeTabId);
      tabs := newTabs;
      if tabId == activeTabId {
        activeTabId := tabs[|tabs| - 1].id;
      }
    }

    /** Clicking a tab makes it the active one. */
    method SwitchTab(tabId: string)
      requires Valid() && HasId(tabs, tabId)
      modifies this
      ensures Valid() && tabs == old(tabs) && activeTabId == tabId
    {
      activeTabId := tabId;
    }

    /** The address bar: a blank entry does nothing, anything else is trimmed and navigated to. */
    method SubmitUrl(input: string) returns (job: Option<Pending>)
      requires Valid()
      modifies this
      ensures Valid() && (old(AllAtNewest()) ==> AllAtNewest()) && activeTabId == old(activeTabId)
      ensures Text.IsBlank(input) ==> job == None && tabs == old(tabs)
      ensures !Text.IsBlank(input) ==>
        var target := Text.Trim(input);
        && job == Some(Pending(activeTabId, FinalUrl(registry(target), target), registry(target), Ramping(5.0)))
        && tabs == ReplaceTab(old(tabs), activeTabId, StartLoading(job.value.finalUrl))
    {
      if Text.Trim(input) != [] {
        var j := Navigate(Text.Trim(input));
        job := Some(j);
      } else {
        job := None;
      }
    }

    /** Reload: navigates the active tab to the URL it shows. */
    method Reload() returns (job: Pending)
      requires Valid()
      modifies this
      ensures Valid() && (old(AllAtNewest()) ==> AllAtNewest()) && activeTabId == old(activeTabId)
      ensures var u := old(ActiveTab()).renderedUrl;
        job == Pending(activeTabId, FinalUrl(registry(u), u), registry(u), Ramping(5.0))
      ensures tabs == ReplaceTab(old(tabs), activeTabId, StartLoading(job.finalUrl))
    {
      job := Navigate(ActiveTab().renderedUrl);
    }

    /** Home: navigates the active tab to the welcome page. */
    method GoHome() returns (job: Pending)
      requires Valid()
      modifies this
      ensures Valid() && (old(AllAtNewest()) ==> AllAtNewest()) && activeTabId == old(activeTabId)
      ensures job == Pending(activeTabId, FinalUrl(registry(Welcome), Welcome), registry(Welcome), Ramping(5.0))
      ensures tabs == ReplaceTab(old(tabs), activeTabId, StartLoading(job.finalUrl))
    {
      job := Navigate(Welcome);
    }

    /**
     * Back: only when the index is above 0, a fresh navigation to the entry
     * before it (which, once committed, is pushed as a new entry).
     */
    method GoBack() returns (job: Option<Pending>)
      requires Valid()
      modifies this
      ensures Valid() && (old(AllAtNewest()) ==> AllAtNewest()) && activeTabId == old(activeTabId)
      ensures var t := old(ActiveTab());
        if CanGoBack(t) then
          var u := t.history[t.historyIndex - 1].url;
          && job == Some(Pending(activeTabId, FinalUrl(registry(u), u), registry(u), Ramping(5.0)))
          && tabs == ReplaceTab(old(tabs), activeTabId, StartLoading(job.value.finalUrl))
        else job == None && tabs == old(tabs)
    {
      var t := ActiveTab();
      if t.historyIndex > 0 {
        var prevEntry := t.history[t.historyIndex - 1];
        var j := Navigate(prevEntry.url);
        job := Some(j);
      } else {
        job := None;
      }
    }

    /**
     * Forward: only when there is an entry after the index, a fresh
     * navigation to it. As every tab keeps its index at the newest entry,
     * this never acts.
     */
    method GoForward() returns (job: Option<Pending>)
      requires Valid()
      modifies this
      ensures Valid() && (old(AllAtNewest()) ==> AllAtNewest()) && activeTabId == old(activeTabId)
      ensures var t := old(ActiveTab());
        if CanGoForward(t) then
          var u := t.history[t.historyIndex + 1].url;
          && job == Some(Pending(activeTabId, FinalUrl(registry(u), u), registry(u), Ramping(5.0)))
          && tabs == ReplaceTab(old(tabs), activeTabId, StartLoading(job.value.finalUrl))
        else job == None && tabs == old(tabs)
      ensures old(AllAtNewest()) ==> job == None && tabs == old(tabs)
    {
      var t := ActiveTab();
      if t.historyIndex < |t.history| - 1 {
        var nextEntry := t.history[t.historyIndex + 1];
        var j := Navigate(nextEntry.url);
        job := Some(j);
      } else {
        job := None;
      }
    }
  }
}
