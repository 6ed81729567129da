/**
 * The TitleReadWhitelist hook fracfHooks_whitelistTitles with its helpers
 * fracf_isUnrestrictedTitle and fracf_forceViewStableByDefault, and the
 * "does nothing unless an override was recorded" guard of the
 * AlternateEdit hook fracfHooks_overrideEditPageVersion.
 */
module AccessControl {
  import opened Wrappers
  import opened PageHistory
  import opened RevisionResolution

  /** The action of the request; `Other` is any action the hook does not handle. */
  datatype Action = View | Purge | Render | Edit | ViewHistory | Other

  /** A page as the hook sees it through FlaggedRevs' lookups. */
  datatype Page = Page(
    inReviewNamespace: bool,  // FlaggedRevs::inReviewNamespace
    revisions: History,       // the page's revision IDs, oldest first
    flagged: set<int>,        // IDs for which FlaggedRevision::newFromTitle finds a flagged revision
    stable: Option<int>)      // the ID FlaggedRevision::newFromStable finds, if any

  /** Facts about the user and the request being served. */
  datatype Context = Context(
    hasReadStable: bool,      // the user holds the 'readstable' right
    isCurrentTitle: bool,     // $wgTitle is set and equals the page asked about
    action: Action)

  /**
   * What the hook decides: whether it sets `$result` to true, the revision
   * it records as "View source" override (None: it records none), and the
   * request's "stable" parameter afterwards.
   */
  datatype Decision = Decision(whitelisted: bool, viewSource: Option<int>, stable: Option<int>)

  /** fracf_isUnrestrictedTitle: pages outside the reviewed namespaces are not access controlled. */
  predicate IsUnrestrictedTitle(page: Page)
    ensures IsUnrestrictedTitle(page) <==> !page.inReviewNamespace
  {
    !page.inReviewNamespace
  }

  /** The "stable" parameter after fracf_forceViewStableByDefault: an existing value is kept, a missing one becomes 1. */
  function ForcedStable(stable: Option<int>): (r: Option<int>)
    ensures r.Some?
    ensures stable.Some? ==> r == stable
    ensures stable.None? ==> r == Some(1)
  {
    if stable.Some? then stable else Some(1)
  }

  /**
   * The decision of fracfHooks_whitelistTitles. `stable` is the request's
   * "stable" parameter on entry, `allowViewHistory` the value of
   * $fracgAllowViewHistory, and `showingStable` tells, for a value of the
   * "stable" parameter, whether FlaggablePageView::showingStable() holds.
   */
  function Decide(page: Page, ctx: Context, p: Params, stable: Option<int>,
                  allowViewHistory: bool, showingStable: Option<int> -> bool): (d: Decision)
    ensures IsUnrestrictedTitle(page) ==> d.whitelisted
    ensures d.viewSource.Some? ==> d.viewSource == page.stable && d.whitelisted && ctx.action == Edit
    ensures d.stable != stable ==> stable.None? && d.stable == Some(1) && ctx.action in {View, Purge, Render}
    ensures d.whitelisted && !IsUnrestrictedTitle(page) ==>
              && ctx.hasReadStable
              && (ctx.isCurrentTitle ==> ctx.action != Other)
              && (!ctx.isCurrentTitle ==> page.stable.Some?)
  {
    if IsUnrestrictedTitle(page) then Decision(true, None, stable)
    else if !ctx.hasReadStable then Decision(false, None, stable)
    else if ctx.isCurrentTitle then
      match ctx.action
      case View | Purge | Render =>
        var r := GetRequestDiffId(p, page.revisions, GetRequestOldId(p, page.revisions));
        if r.refId.Some? then
          var allFlagged := (r.diffId.None? || r.diffId.value in page.flagged) && r.refId.value in page.flagged;
          Decision(allFlagged, None, stable)
        else
          var forced := ForcedStable(stable);
          Decision(showingStable(forced), None, forced)
      case Edit =>
        var oldId := GetRequestOldId(p, page.revisions);
        if oldId.Some? then Decision(oldId.value in page.flagged, None, stable)
        else Decision(page.stable.Some?, page.stable, stable)
      case ViewHistory => Decision(allowViewHistory, None, stable)
      case Other => Decision(false, None, stable)
    else Decision(page.stable.Some?, None, stable)
  }

  /** The web request: its parsed parameters and its mutable "stable" parameter. */
  class WebRequest {
    const params: Params
    var stable: Option<int>

    constructor (params: Params, stable: Option<int>)
      ensures this.params == params && this.stable == stable
    {
      this.params := params;
      this.stable := stable;
    }
  }

  /** The extension's globals: its configuration and the "View source" override. */
  class HookGlobals {
    const allowViewHistory: bool         // $fracgAllowViewHistory === true
    var viewSourceRevision: Option<int>  // $fracgViewSourceRevision; None while unset

    constructor (allowViewHistory: bool)
      ensures this.allowViewHistory == allowViewHistory && viewSourceRevision.None?
    {
      this.allowViewHistory := allowViewHistory;
      viewSourceRevision := None;
    }
  }

  /** The edit page being prepared; `oldId` is the revision its article shows, 0 for the latest. */
  class EditPage {
    var oldId: int

    constructor ()
      ensures oldId == 0
    {
      oldId := 0;
    }
  }

  /** fracf_forceViewStableByDefault: request the stable version unless "stable" was given. */
  method ForceViewStableByDefault(request: WebRequest)
    modifies request`stable
    ensures request.stable == ForcedStable(old(request.stable))
  {
    if request.stable.Some? {
      return;
    }
    request.stable := Some(1);
  }

  /**
   * fracfHooks_whitelistTitles: `result` is the by-reference `$result` on
   * entry and `resultOut` its value afterwards; `proceed` is the hook's
   * return value.
   */
  method WhitelistTitles(page: Page, ctx: Context, request: WebRequest, globals: HookGlobals,
                         showingStable: Option<int> -> bool, result: bool)
    returns (proceed: bool, resultOut: bool)
    modifies request`stable, globals`viewSourceRevision
    ensures proceed
    ensures result ==> resultOut
    ensures var d := Decide(page, ctx, request.params, old(request.stable), globals.allowViewHistory, showingStable);
            && resultOut == (result || d.whitelisted)
            && request.stable == d.stable
            && globals.viewSourceRevision == if d.viewSource.Some? then d.viewSource else old(globals.viewSourceRevision)
  {
    proceed, resultOut := true, result;
    if IsUnrestrictedTitle(page) {
      resultOut := true;
      return;
    }
    if !ctx.hasReadStable {
      return;
    }
    var h := page.revisions;
    if ctx.isCurrentTitle {
      match ctx.action {
        case View | Purge | Render =>
          var oldId := GetRequestOldId(request.params, h);
          var diff := GetRequestDiffId(request.params, h, oldId);
          oldId := diff.refId;
          if oldId.Some? {
            if diff.diffId.Some? && diff.diffId.value !in page.flagged {
              return;
            }
            if oldId.value !in page.flagged {
              return;
            }
            resultOut := true;
            return;
          }
          ForceViewStableByDefault(request);
          if showingStable(request.stable) {
            resultOut := true;
            return;
          }
        case Edit =>
          var oldId := GetRequestOldId(request.params, h);
          var frev: Option<int>;
          if oldId.Some? {
            frev := if oldId.value in page.flagged then oldId else None;
          } else {
            frev := page.stable;
            if frev.Some? {
              globals.viewSourceRevision := frev;
            }
          }
          if frev.Some? {
            resultOut := true;
            return;
          }
        case ViewHistory =>
          if globals.allowViewHistory {
            resultOut := true;
            return;
          }
        case Other =>
      }
    } else {
      if page.stable.Some? {
        resultOut := true;
      }
    }
  }

  /**
   * fracfHooks_overrideEditPageVersion: when an override revision was
   * recorded, the edit page shows that revision; otherwise nothing changes.
   */
  method OverrideEditPageVersion(globals: HookGlobals, editPage: EditPage) returns (proceed: bool)
    modifies editPage
    ensures proceed
    ensures globals.viewSourceRevision.None? ==> editPage.oldId == old(editPage.oldId)
    ensures globals.viewSourceRevision.Some? ==> editPage.oldId == globals.viewSourceRevision.value
  {
    proceed := true;
    if globals.viewSourceRevision.None? {
      return;
    }
    editPage.oldId := globals.viewSourceRevision.value;
  }

  /** An unrestricted page is whitelisted whatever the user, action or parameters. */
  lemma UnrestrictedTitleWhitelisted(page: Page, ctx: Context, p: Params, stable: Option<int>,
                                     allowViewHistory: bool, showingStable: Option<int> -> bool)
    requires IsUnrestrictedTitle(page)
    ensures Decide(page, ctx, p, stable, allowViewHistory, showingStable) == Decision(true, None, stable)
  {
  }

  /** On a restricted page, a user without 'readstable' gets no whitelisting and nothing changes. */
  lemma NoReadStableNoWhitelist(page: Page, ctx: Context, p: Params, stable: Option<int>,
                                allowViewHistory: bool, showingStable: Option<int> -> bool)
    requires !IsUnrestrictedTitle(page) && !ctx.hasReadStable
    ensures Decide(page, ctx, p, stable, allowViewHistory, showingStable) == Decision(false, None, stable)
  {
  }

  /** A restricted page other than the one being rendered is whitelisted iff it has a stable version. */
  lemma OtherTitleWhitelistedIffStable(page: Page, ctx: Context, p: Params, stable: Option<int>,
                                       allowViewHistory: bool, showingStable: Option<int> -> bool)
    requires !IsUnrestrictedTitle(page) && ctx.hasReadStable && !ctx.isCurrentTitle
    ensures Decide(page, ctx, p, stable, allowViewHistory, showingStable)
            == Decision(page.stable.Some?, None, stable)
  {
  }

  /**
   * Viewing specific revisions (an "oldid", or a "diff" that fixes one):
   * whitelisted iff every revision of the request is flagged; the
   * "stable" parameter is left alone.
   */
  lemma ViewOfRevisions(page: Page, ctx: Context, p: Params, stable: Option<int>,
                        allowViewHistory: bool, showingStable: Option<int> -> bool)
    requires !IsUnrestrictedTitle(page) && ctx.hasReadStable && ctx.isCurrentTitle
    requires ctx.action in {View, Purge, Render}
    requires GetRequestDiffId(p, page.revisions, GetRequestOldId(p, page.revisions)).refId.Some?
    ensures var r := GetRequestDiffId(p, page.revisions, GetRequestOldId(p, page.revisions));
            var d := Decide(page, ctx, p, stable, allowViewHistory, showingStable);
            && (d.whitelisted <==> r.refId.value in page.flagged && (r.diffId.Some? ==> r.diffId.value in page.flagged))
            && d.viewSource.None? && d.stable == stable
  {
  }

  /**
   * A plain view (neither "oldid" nor "diff" resolves to a revision):
   * the stable version is requested by default and the page is
   * whitelisted iff the stable version is then shown.
   */
  lemma PlainViewShowsStable(page: Page, ctx: Context, p: Params, stable: Option<int>,
                             allowViewHistory: bool, showingStable: Option<int> -> bool)
    requires !IsUnrestrictedTitle(page) && ctx.hasReadStable && ctx.isCurrentTitle
    requires ctx.action in {View, Purge, Render}
    requires GetRequestOldId(p, page.revisions).None?
    requires GetRequestDiffId(p, page.revisions, None).diffId.None?
    ensures var d := Decide(page, ctx, p, stable, allowViewHistory, showingStable);
            && d.stable == ForcedStable(stable)
            && d.whitelisted == showingStable(ForcedStable(stable))
            && d.viewSource.None?
  {
  }

  /** Editing a specific revision is whitelisted iff that revision is flagged; no override is recorded. */
  lemma EditOfRevision(page: Page, ctx: Context, p: Params, stable: Option<int>,
                       allowViewHistory: bool, showingStable: Option<int> -> bool)
    requires !IsUnrestrictedTitle(page) && ctx.hasReadStable && ctx.isCurrentTitle && ctx.action == Edit
    requires GetRequestOldId(p, page.revisions).Some?
    ensures Decide(page, ctx, p, stable, allowViewHistory, showingStable)
            == Decision(GetRequestOldId(p, page.revisions).value in page.flagged, None, stable)
  {
  }

  /**
   * Editing without "oldid": the stable revision, when there is one, is
   * recorded as the "View source" override, and the page is whitelisted
   * exactly then.
   */
  lemma EditWithoutOldId(page: Page, ctx: Context, p: Params, stable: Option<int>,
                         allowViewHistory: bool, showingStable: Option<int> -> bool)
    requires !IsUnrestrictedTitle(page) && ctx.hasReadStable && ctx.isCurrentTitle && ctx.action == Edit
    requires GetRequestOldId(p, page.revisions).None?
    ensures Decide(page, ctx, p, stable, allowViewHistory, showingStable)
            == Decision(page.stable.Some?, page.stable, stable)
  {
  }

  /** The history action is whitelisted iff the configuration allows viewing history. */
  lemma HistoryFollowsConfiguration(page: Page, ctx: Context, p: Params, stable: Option<int>,
                                    allowViewHistory: bool, showingStable: Option<int> -> bool)
    requires !IsUnrestrictedTitle(page) && ctx.hasReadStable && ctx.isCurrentTitle && ctx.action == ViewHistory
    ensures Decide(page, ctx, p, stable, allowViewHistory, showingStable)
            == Decision(allowViewHistory, None, stable)
  {
  }

  /** A "View source" override is recorded exactly for an edit without "oldid" of a restricted page with a stable version. */
  lemma ViewSourceOnlyFromEdit(page: Page, ctx: Context, p: Params, stable: Option<int>,
                               allowViewHistory: bool, showingStable: Option<int> -> bool)
    ensures Decide(page, ctx, p, stable, allowViewHistory, showingStable).viewSource.Some?
            <==> && !IsUnrestrictedTitle(page) && ctx.hasReadStable && ctx.isCurrentTitle
                 && ctx.action == Edit && GetRequestOldId(p, page.revisions).None?
                 && page.stable.Some?
  {
  }

  /** Forcing the stable view a second time changes nothing. */
  lemma ForcedStableIdempotent(stable: Option<int>)
    ensures ForcedStable(ForcedStable(stable)) == ForcedStable(stable)
  {
  }

  /**
   * Deciding again on the request as the first decision left it gives
   * the same decision: the hook is idempotent.
   */
  lemma DecideIdempotent(page: Page, ctx: Context, p: Params, stable: Option<int>,
                         allowViewHistory: bool, showingStable: Option<int> -> bool)
    ensures var d := Decide(page, ctx, p, stable, allowViewHistory, showingStable);
            Decide(page, ctx, p, d.stable, allowViewHistory, showingStable) == d
  {
    ForcedStableIdempotent(stable);
  }
}
