/**
 * Locale selection on the tree page (the `Translatable` concern of
 * src/Resources/Pages/TreePage/Concerns/Translatable.php): the page's
 * `activeLocale`, its initial value, the locale the tree displays, the header's
 * locale switcher and the events the changes dispatch.
 */
module TreeLocales {
  import opened PhpValues

  /** `?string` as a PHP value. */
  function AsValue(a: Option<string>): Value
  {
    match a
    case None => Null
    case Some(s) => Str(s)
  }

  /** `empty($activeLocale)`: null, `""` or `"0"`. */
  predicate EmptyLocale(a: Option<string>)
  {
    !Truthy(AsValue(a))
  }

  /** `in_array($needle, $haystack)` with PHP's loose `==`. */
  predicate InArray(needle: Value, haystack: seq<string>)
  {
    exists i :: 0 <= i < |haystack| && LooseEq(needle, Str(haystack[i]))
  }

  /** The locale `mountTranslatable` leaves: the first available one replaces an empty value. */
  function MountedLocale(active: Option<string>, locales: seq<string>): (r: Option<string>)
    ensures !EmptyLocale(active) || locales == [] ==> r == active
    ensures EmptyLocale(active) && locales != [] ==> r == Some(locales[0])
  {
    if EmptyLocale(active) && locales != [] then Some(locales[0]) else active
  }

  /** `getActiveTreeLocale`: the active locale when it is (loosely) among the available ones, else null. */
  function ActiveTreeLocale(active: Option<string>, locales: seq<string>): (r: Option<string>)
    ensures r.Some? <==> active.Some? && InArray(Str(active.value), locales)
    ensures r.Some? ==> r == active
  {
    if !InArray(AsValue(active), locales) then None else active
  }

  /** After mounting with locales available from an empty value, the tree shows the first one. */
  lemma MountShowsFirstLocale(active: Option<string>, locales: seq<string>)
    requires EmptyLocale(active) && locales != []
    ensures ActiveTreeLocale(MountedLocale(active, locales), locales) == Some(locales[0])
  {
    assert LooseEq(Str(locales[0]), Str(locales[0]));
  }

  /** A locale that is literally in the list is always the one shown. */
  lemma ListedLocaleShown(l: string, locales: seq<string>, i: int)
    requires 0 <= i < |locales| && locales[i] == l
    ensures ActiveTreeLocale(Some(l), locales) == Some(l)
  {
    assert LooseEq(Str(l), Str(locales[i]));
  }

  /** For locale codes that are not integer numerals, loose membership is plain membership. */
  lemma NonNumericLocales(l: string, locales: seq<string>)
    requires ParseDecimal(l).None?
    ensures ActiveTreeLocale(Some(l), locales) == (if l in locales then Some(l) else None)
  {
    if l in locales {
      var i :| 0 <= i < |locales| && locales[i] == l;
      ListedLocaleShown(l, locales, i);
    } else {
      forall i | 0 <= i < |locales|
        ensures !LooseEq(Str(l), Str(locales[i]))
      {
        LooseEqNonNumericStrings(l, locales[i]);
      }
    }
  }

  /** A header action: the locale switcher (its options and default) or one the parent page defines. */
  datatype HeaderAction = SwitchLocale(options: seq<string>, defaultLocale: string) | ParentAction(name: string)

  /** `getHeaderActions`: the switcher is put in front of the parent's actions when several locales exist. */
  function HeaderActions(active: Option<string>, locales: seq<string>, parentActions: seq<string>): seq<HeaderAction>
  {
    var inherited := seq(|parentActions|, i requires 0 <= i < |parentActions| => ParentAction(parentActions[i]));
    if |locales| <= 1 then inherited
    else [SwitchLocale(locales, if active.Some? then active.value else locales[0])] + inherited
  }

  /**
   * The switcher is offered exactly when more than one locale is available, at most
   * once, and the parent's actions follow in their order; its default is the active
   * locale, or the first available one when there is none.
   */
  lemma SwitcherIffSeveralLocales(active: Option<string>, locales: seq<string>, parentActions: seq<string>)
    ensures (exists i :: 0 <= i < |HeaderActions(active, locales, parentActions)| && HeaderActions(active, locales, parentActions)[i].SwitchLocale?)
      <==> |locales| > 1
    ensures |HeaderActions(active, locales, parentActions)| == |parentActions| + (if |locales| > 1 then 1 else 0)
    ensures forall i :: 0 <= i < |parentActions| ==>
      HeaderActions(active, locales, parentActions)[i + (if |locales| > 1 then 1 else 0)] == ParentAction(parentActions[i])
    ensures |locales| > 1 ==>
      HeaderActions(active, locales, parentActions)[0] == SwitchLocale(locales, if active.Some? then active.value else locales[0])
  {
    var h := HeaderActions(active, locales, parentActions);
    if |locales| > 1 {
      assert h[0].SwitchLocale?;
    } else {
      assert forall i :: 0 <= i < |h| ==> h[i] == ParentAction(parentActions[i]);
    }
  }

  /** The event `updatedActiveLocale` dispatches. */
  const LocaleUpdatedEvent: string := "tree-locale-updated"
  /** The event the switcher dispatches. */
  const RefreshEvent: string := "$refresh"

  class TreePageLocale {
    /** `$activeLocale`. */
    var activeLocale: Option<string>
    /** `getTranslatableLocales()`, from the resource's configuration. */
    const locales: seq<string>
    /** The events dispatched, oldest first. */
    var dispatched: seq<string>

    constructor (available: seq<string>, initial: Option<string>)
      ensures locales == available && activeLocale == initial && dispatched == []
    {
      locales := available;
      activeLocale := initial;
      dispatched := [];
    }

    /** `mountTranslatable`. */
    method MountTranslatable()
      modifies this`activeLocale
      ensures activeLocale == MountedLocale(old(activeLocale), locales)
    {
      if EmptyLocale(activeLocale) && |locales| != 0 {
        activeLocale := Some(locales[0]);
      }
    }

    /** `getActiveTreeLocale`. */
    function GetActiveTreeLocale(): (r: Option<string>)
      reads this
      ensures r.Some? <==> activeLocale.Some? && InArray(Str(activeLocale.value), locales)
      ensures r.Some? ==> r == activeLocale
    {
      ActiveTreeLocale(activeLocale, locales)
    }

    /** `getHeaderActions`, given the parent page's actions. */
    function GetHeaderActions(parentActions: seq<string>): (r: seq<HeaderAction>)
      reads this
      ensures r == HeaderActions(activeLocale, locales, parentActions)
    {
      HeaderActions(activeLocale, locales, parentActions)
    }

    /** `updatedActiveLocale`: dispatch the locale-updated event. */
    method UpdatedActiveLocale()
      modifies this`dispatched
      ensures dispatched == old(dispatched) + [LocaleUpdatedEvent]
    {
      dispatched := dispatched + [LocaleUpdatedEvent];
    }

    /** `setActiveLocale($locale)`: set the locale, then dispatch the locale-updated event once. */
    method SetActiveLocale(locale: string)
      modifies this`activeLocale, this`dispatched
      ensures activeLocale == Some(locale)
      ensures dispatched == old(dispatched) + [LocaleUpdatedEvent]
    {
      activeLocale := Some(locale);
      UpdatedActiveLocale();
    }

    /** The switcher's action with the form's `locale` entry: set the locale and dispatch a refresh. */
    method SwitchLocaleAction(locale: string)
      modifies this`activeLocale, this`dispatched
      ensures activeLocale == Some(locale)
      ensures dispatched == old(dispatched) + [RefreshEvent]
    {
      activeLocale := Some(locale);
      dispatched := dispatched + [RefreshEvent];
    }
  }
}
