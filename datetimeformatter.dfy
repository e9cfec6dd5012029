/**
  The `flash.globalization.DateTimeFormatter` class: each script-visible method updates
  the object's status, locale names or pattern by a fixed rule.

  Date formatting itself (`Date::format`) is platform code; it is a parameter here,
  a function from the global locale in force, a date, the pattern and a UTC flag to the
  formatted text.
*/
module DateTimeFormatting {
  import opened Wrappers
  import Locale

  const NO_ERROR: string := "noError"
  const USING_DEFAULT_WARNING: string := "usingDefaultWarning"
  /** The style used for a date or time style argument that is not supplied. */
  const DEFAULT_STYLE: string := "long"

  /** A script `Date` object (Date.h is not part of this model). */
  datatype Date = Date(time: int)

  /**
    `Date::format(pattern, utc)` called while the global locale is the one named by the first
    argument (`None` for the default locale).
  */
  type DateFormat = (Option<string>, Date, string, bool) -> string

  /** The native functions the class can bind script method names to. */
  datatype NativeFunction = SetDateTimePatternFn | FormatFn | FormatUTCFn | GetAvailableLocaleIDNamesFn

  /** The declared methods of the class: script name to the native function that runs. */
  function DeclaredMethods(): (t: map<string, NativeFunction>)
    ensures t.Keys == {"setDateTimePattern", "format", "formatUTC", "getAvailableLocaleIDNames"}
    ensures t["setDateTimePattern"] == SetDateTimePatternFn
    ensures t["format"] == FormatFn && t["formatUTC"] == FormatUTCFn
  {
    map["setDateTimePattern" := SetDateTimePatternFn,
        "format" := FormatFn,
        "formatUTC" := FormatUTCFn,
        "getAvailableLocaleIDNames" := FormatUTCFn]
  }

  /**
    The script name "getAvailableLocaleIDNames" runs `formatUTC`; no script name reaches the
    native `getAvailableLocaleIDNames`.
  */
  lemma AvailableLocaleIDNamesDispatchesToFormatUTC()
    ensures DeclaredMethods()["getAvailableLocaleIDNames"] == FormatUTCFn
    ensures DeclaredMethods()["formatUTC"] == DeclaredMethods()["getAvailableLocaleIDNames"]
    ensures forall name :: name in DeclaredMethods() ==> DeclaredMethods()[name] != GetAvailableLocaleIDNamesFn
  {
  }

  class DateTimeFormatter {
    var requestedLocaleIDName: string
    var actualLocaleIDName: string
    var lastOperationStatus: string
    var dateStyle: string
    var timeStyle: string
    var pattern: string
    /** The name the current locale was constructed from; `None` for the default locale. */
    var currlocale: Option<string>

    /** The native constructor: it initialises none of the fields, which start empty. */
    constructor ()
      ensures requestedLocaleIDName == "" && actualLocaleIDName == "" && lastOperationStatus == ""
      ensures dateStyle == "" && timeStyle == "" && pattern == "" && currlocale == None
    {
      requestedLocaleIDName, actualLocaleIDName, lastOperationStatus := "", "", "";
      dateStyle, timeStyle, pattern, currlocale := "", "", "", None;
    }

    /**
      The script constructor: records the request and the styles; when the locale manager finds
      the locale, the current locale is built from its system name and the actual name becomes the
      requested one; otherwise only the status changes, to a warning.
    */
    method Construct(requested: string, dateStyleArg: Option<string>, timeStyleArg: Option<string>,
                     installed: set<string>)
      modifies this
      ensures requestedLocaleIDName == requested
      ensures dateStyle == dateStyleArg.GetOr(DEFAULT_STYLE) && timeStyle == timeStyleArg.GetOr(DEFAULT_STYLE)
      ensures Locale.IsLocaleAvailableOnSystem(installed, requested) ==>
        && currlocale == Some(Locale.GetSystemLocaleName(installed, requested))
        && currlocale.value in installed
        && actualLocaleIDName == requested
        && lastOperationStatus == NO_ERROR
      ensures !Locale.IsLocaleAvailableOnSystem(installed, requested) ==>
        && currlocale == old(currlocale)
        && actualLocaleIDName == old(actualLocaleIDName)
        && lastOperationStatus == USING_DEFAULT_WARNING
      ensures pattern == old(pattern)
    {
      requestedLocaleIDName := requested;
      dateStyle := dateStyleArg.GetOr(DEFAULT_STYLE);
      timeStyle := timeStyleArg.GetOr(DEFAULT_STYLE);
      if Locale.IsLocaleAvailableOnSystem(installed, requestedLocaleIDName) {
        var localeName := Locale.GetSystemLocaleName(installed, requestedLocaleIDName);
        Locale.SystemNameInstalledWhenAvailable(installed, requestedLocaleIDName);
        currlocale := Some(localeName);
        actualLocaleIDName := requestedLocaleIDName;
        lastOperationStatus := NO_ERROR;
      } else {
        lastOperationStatus := USING_DEFAULT_WARNING;
      }
    }

    /** Stores the pattern and reports success; nothing else changes. */
    method SetDateTimePattern(p: string)
      modifies this`pattern, this`lastOperationStatus
      ensures pattern == p && lastOperationStatus == NO_ERROR
    {
      pattern := p;
      lastOperationStatus := NO_ERROR;
    }

    /**
      `format`: a null date gives the empty string; otherwise the date is formatted in local
      time while the global locale is swapped for the current locale. The status is never touched.
    */
    method Format(dt: Option<Date>, dateFormat: DateFormat) returns (res: string)
      ensures dt.None? ==> res == ""
      ensures dt.Some? ==> res == dateFormat(currlocale, dt.value, pattern, false)
    {
      res := "";
      if dt.Some? {
        res := dateFormat(currlocale, dt.value, pattern, false);
      }
    }

    /** `formatUTC`: as `format`, with the date rendered in UTC. */
    method FormatUTC(dt: Option<Date>, dateFormat: DateFormat) returns (res: string)
      ensures dt.None? ==> res == ""
      ensures dt.Some? ==> res == dateFormat(currlocale, dt.value, pattern, true)
    {
      res := "";
      if dt.Some? {
        res := dateFormat(currlocale, dt.value, pattern, true);
      }
    }

    /**
      The native `getAvailableLocaleIDNames`: copies the manager's list, in its order, into the
      result and reports success.
    */
    method GetAvailableLocaleIDNames(manager: Locale.LocaleManager, installed: set<string>) returns (res: seq<string>)
      modifies this`lastOperationStatus
      ensures res == Locale.AvailableInOrder(installed, manager.order)
      ensures manager.Valid() ==> Locale.Distinct(res)
      ensures manager.Valid() ==> forall k :: k in res <==> k in manager.locales && Locale.IsLocaleAvailableOnSystem(installed, k)
      ensures lastOperationStatus == NO_ERROR
    {
      var localeIds := manager.GetAvailableLocaleIDNames(installed);
      res := [];
      var i := 0;
      while i < |localeIds|
        invariant 0 <= i <= |localeIds|
        invariant res == localeIds[..i]
      {
        res := res + [localeIds[i]];
        i := i + 1;
      }
      assert res == localeIds;
      lastOperationStatus := NO_ERROR;
    }
  }
}
