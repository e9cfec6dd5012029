/**
  The locale manager of the backends: a fixed table of locale IDs, and the chain of
  candidate names tried when asking the platform whether a locale is installed.

  The platform's `std::locale(name)` constructor is modelled by the set `installed` of
  the names it accepts; any other name makes it throw `std::runtime_error`.
*/
module Locale {
  import opened Wrappers
  import opened BoundedInts

  /** The suffix appended as the last candidate. */
  const UTF8_SUFFIX: string := ".UTF-8"

  /** `std::string::npos` on a 64-bit `size_t`. */
  const NPOS: nat := 0xFFFF_FFFF_FFFF_FFFF

  /** Exceptions the code raises that no handler in it catches. */
  datatype Exception = OutOfRange

  // ---------------------------------------------------------------------------
  // String helpers
  // ---------------------------------------------------------------------------

  /** The position of the first '-' in `s`, as `find("-")` reports it. */
  function FindHyphen(s: string): (r: Option<nat>)
    ensures r.Some? ==> r.value < |s| && s[r.value] == '-' && forall j :: 0 <= j < r.value ==> s[j] != '-'
    ensures r.None? ==> forall j :: 0 <= j < |s| ==> s[j] != '-'
  {
    if s == [] then None
    else if s[0] == '-' then Some(0)
    else match FindHyphen(s[1..])
      case None => None
      case Some(i) => Some(i + 1)
  }

  /**
    `std::string::replace(pos, 1, r)`: the character at `pos` (if any) becomes `r`.
    Positions past the end raise `std::out_of_range`.
  */
  function ReplaceOne(s: string, pos: nat, r: string): (t: Result<string, Exception>)
    ensures t.Failure? <==> pos > |s|
    ensures pos < |s| ==> t == Success(s[..pos] + r + s[pos + 1..])
    ensures pos == |s| ==> t == Success(s + r)
  {
    if pos > |s| then Failure(OutOfRange)
    else if pos == |s| then Success(s + r)
    else Success(s[..pos] + r + s[pos + 1..])
  }

  /** The second candidate: `name` with its first '-' replaced by '_'. */
  function Underscored(name: string): (u: string)
    requires FindHyphen(name).Some?
    ensures |u| == |name|
    ensures u[FindHyphen(name).value] == '_'
    ensures forall j :: 0 <= j < |name| && j != FindHyphen(name).value ==> u[j] == name[j]
  {
    var pos := FindHyphen(name).value;
    name[..pos] + "_" + name[pos + 1..]
  }

  // ---------------------------------------------------------------------------
  // The candidate chain (with the `npos` test the code evidently intends)
  // ---------------------------------------------------------------------------

  /** The names tried, in order, for a requested locale name. */
  function Candidates(name: string): (c: seq<string>)
    ensures 2 <= |c| <= 3 && c[0] == name
    ensures FindHyphen(name).Some? ==> c == [name, Underscored(name), Underscored(name) + UTF8_SUFFIX]
    ensures FindHyphen(name).None? ==> c == [name, name + UTF8_SUFFIX]
  {
    if FindHyphen(name).Some? then
      var u := Underscored(name);
      [name, u, u + UTF8_SUFFIX]
    else
      [name, name + UTF8_SUFFIX]
  }

  /** The index of the first installed candidate, if any. */
  function FirstInstalled(installed: set<string>, candidates: seq<string>): (r: Option<nat>)
    ensures r.Some? ==> r.value < |candidates| && candidates[r.value] in installed
    ensures r.Some? ==> forall j :: 0 <= j < r.value ==> candidates[j] !in installed
    ensures r.None? ==> forall j :: 0 <= j < |candidates| ==> candidates[j] !in installed
  {
    if candidates == [] then None
    else if candidates[0] in installed then Some(0)
    else match FirstInstalled(installed, candidates[1..])
      case None => None
      case Some(i) => Some(i + 1)
  }

  /** The first candidate the platform accepts: the reference meaning of the decision chain. */
  function AcceptedName(installed: set<string>, name: string): (r: Option<string>)
    ensures r.Some? ==> r.value in installed && r.value in Candidates(name)
    ensures r.None? <==> forall c :: c in Candidates(name) ==> c !in installed
  {
    var c := Candidates(name);
    match FirstInstalled(installed, c)
    case None => None
    case Some(i) => Some(c[i])
  }

  /**
    `isLocaleAvailableOnSystem` with the '-' test done against `npos`: try the name,
    then (when it has a '-') the underscored name and that name plus ".UTF-8",
    otherwise the name plus ".UTF-8".
  */
  function IsLocaleAvailableOnSystem(installed: set<string>, locale: string): bool {
    if locale in installed then true
    else if FindHyphen(locale).Some? then
      var l := Underscored(locale);
      if l in installed then true
      else l + UTF8_SUFFIX in installed
    else
      locale + UTF8_SUFFIX in installed
  }

  /** `getSystemLocaleName` with the `npos` test: the candidate that was accepted, or "". */
  function GetSystemLocaleName(installed: set<string>, name: string): string {
    if name in installed then name
    else if FindHyphen(name).Some? then
      var l := Underscored(name);
      if l in installed then l
      else if l + UTF8_SUFFIX in installed then l + UTF8_SUFFIX
      else ""
    else if name + UTF8_SUFFIX in installed then name + UTF8_SUFFIX
    else ""
  }

  /** A locale is available exactly when one of its candidates is accepted. */
  lemma AvailableIffSomeCandidateInstalled(installed: set<string>, locale: string)
    ensures IsLocaleAvailableOnSystem(installed, locale) <==> AcceptedName(installed, locale).Some?
    ensures IsLocaleAvailableOnSystem(installed, locale) <==> exists c :: c in Candidates(locale) && c in installed
  {
  }

  /** The first accepted candidate, spelled out case by case as the code tries them. */
  lemma AcceptedNameInOrder(installed: set<string>, name: string)
    ensures AcceptedName(installed, name) ==
      if name in installed then Some(name)
      else if FindHyphen(name).Some? then
        (if Underscored(name) in installed then Some(Underscored(name))
         else if Underscored(name) + UTF8_SUFFIX in installed then Some(Underscored(name) + UTF8_SUFFIX)
         else None)
      else if name + UTF8_SUFFIX in installed then Some(name + UTF8_SUFFIX)
      else None
  {
    var c := Candidates(name);
    var r := FirstInstalled(installed, c);
    if name in installed {
      assert r == Some(0);
    } else if FindHyphen(name).Some? {
      var u := Underscored(name);
      assert c[0] == name && c[1] == u && c[2] == u + UTF8_SUFFIX;
      if u in installed {
        assert r == Some(1);
      } else if u + UTF8_SUFFIX in installed {
        assert r == Some(2);
      } else {
        assert r == None;
      }
    } else if name + UTF8_SUFFIX in installed {
      assert c[1] == name + UTF8_SUFFIX;
      assert r == Some(1);
    } else {
      assert r == None;
    }
  }

  /** The system name is the first accepted candidate, or "" when none is. */
  lemma SystemNameIsFirstAccepted(installed: set<string>, name: string)
    ensures GetSystemLocaleName(installed, name) == AcceptedName(installed, name).GetOr("")
  {
    AcceptedNameInOrder(installed, name);
  }

  /** An available locale's system name is a name the platform accepts. */
  lemma SystemNameInstalledWhenAvailable(installed: set<string>, name: string)
    requires IsLocaleAvailableOnSystem(installed, name)
    ensures GetSystemLocaleName(installed, name) in installed
  {
  }

  /**
    For a non-empty request, `getSystemLocaleName` returns "" exactly when
    `isLocaleAvailableOnSystem` returns false (every candidate is then non-empty).
  */
  lemma SystemNameEmptyIffUnavailable(installed: set<string>, name: string)
    requires name != ""
    ensures GetSystemLocaleName(installed, name) == "" <==> !IsLocaleAvailableOnSystem(installed, name)
  {
  }

  // ---------------------------------------------------------------------------
  // The functions as written: `std::locale(x);` is a declaration
  // ---------------------------------------------------------------------------

  /**
    `isLocaleAvailableOnSystem` as written. The statement `std::locale(locale);` at line 53
    has the form `T(x);`, which C++ reads as a declaration: it declares a default-constructed
    `std::locale` named `locale`, hiding the parameter. That constructor never throws, so
    line 54 returns true whatever the platform has installed.
  */
  function IsLocaleAvailableOnSystemAsWritten(installed: set<string>, locale: string): (r: bool)
    ensures r
  {
    true
  }

  /**
    `getSystemLocaleName` as written: `std::locale(name);` at line 108 declares a default
    `std::locale` named `name`, a copy of the global locale, and line 109 returns that
    locale's `name()`. `globalName` is the name of the global locale at the time of the call.
  */
  function GetSystemLocaleNameAsWritten(globalName: string, installed: set<string>, name: string): (r: string)
    ensures r == globalName
  {
    globalName
  }

  /**
    As written, a name nothing installed answers to is reported available, where the
    intended chain reports it unavailable: with no locale installed, "xx" is accepted.
  */
  lemma AsWrittenAcceptsUninstalledName()
    ensures IsLocaleAvailableOnSystemAsWritten({}, "xx")
    ensures !IsLocaleAvailableOnSystem({}, "xx")
    ensures forall name :: IsLocaleAvailableOnSystemAsWritten({}, name) != IsLocaleAvailableOnSystem({}, name)
  {
    forall name
      ensures !IsLocaleAvailableOnSystem({}, name)
    {
      AvailableIffSomeCandidateInstalled({}, name);
    }
  }

  /**
    As written, the system name ignores the request: with "en_US.UTF-8" installed and the
    global locale "C", `getSystemLocaleName("en_US")` returns "C" instead of "en_US.UTF-8".
  */
  lemma AsWrittenNameIgnoresRequest()
    ensures GetSystemLocaleNameAsWritten("C", {"en_US.UTF-8"}, "en_US") == "C"
    ensures GetSystemLocaleName({"en_US.UTF-8"}, "en_US") == "en_US.UTF-8"
  {
    assert FindHyphen("en_US").None?;
    assert "en_US" + UTF8_SUFFIX == "en_US.UTF-8";
  }

  // ---------------------------------------------------------------------------
  // The handlers as written: `find` is stored in a uint32_t and compared with `size()`
  // ---------------------------------------------------------------------------

  /** `uint32_t pos = s.find("-")`: the position, or `npos` truncated to 32 bits. */
  function HyphenPos32(s: string): (pos: uint32)
    ensures FindHyphen(s).None? ==> pos == UINT32_MAX
    ensures FindHyphen(s).Some? && FindHyphen(s).value < TWO_TO_THE_32 ==> pos == FindHyphen(s).value
  {
    match FindHyphen(s)
    case None => WrapUint32(NPOS)
    case Some(i) => WrapUint32(i)
  }

  /**
    `isLocaleAvailableOnSystem` with each `std::locale(x);` statement constructing a locale
    from `x`, as the `runtime_error` handlers expect, but with the handlers' guard as written:
    `pos != locale.size()` lets a name without '-' reach `replace` at position 2^32-1, which
    throws `std::out_of_range`, an exception the handlers do not catch. Since line 53 is a
    declaration, this path is latent in the code as it stands.
  */
  function IsLocaleAvailableOnSystemSizeGuard(installed: set<string>, locale: string): Result<bool, Exception> {
    if locale in installed then Success(true)
    else
      var pos := HyphenPos32(locale);
      if pos != |locale| then
        match ReplaceOne(locale, pos, "_")
        case Failure(e) => Failure(e)
        case Success(l) =>
          if l in installed then Success(true)
          else Success(l + UTF8_SUFFIX in installed)
      else
        Success(locale + UTF8_SUFFIX in installed)
  }

  /** `getSystemLocaleName` in the same way: constructing statements, the guard as written. */
  function GetSystemLocaleNameSizeGuard(installed: set<string>, name: string): Result<string, Exception> {
    if name in installed then Success(name)
    else
      var pos := HyphenPos32(name);
      if pos != |name| then
        match ReplaceOne(name, pos, "_")
        case Failure(e) => Failure(e)
        case Success(l) =>
          if l in installed then Success(l)
          else if l + UTF8_SUFFIX in installed then Success(l + UTF8_SUFFIX)
          else Success("")
      else if name + UTF8_SUFFIX in installed then Success(name + UTF8_SUFFIX)
      else Success("")
  }

  /**
    With the guard as written, every name without '-' that the platform does not accept as it
    is throws instead of trying the ".UTF-8" candidate: the branch meant for such names is dead.
  */
  lemma SizeGuardThrowsWithoutHyphen(installed: set<string>, name: string)
    requires |name| < UINT32_MAX
    requires FindHyphen(name).None? && name !in installed
    ensures IsLocaleAvailableOnSystemSizeGuard(installed, name) == Failure(OutOfRange)
    ensures GetSystemLocaleNameSizeGuard(installed, name) == Failure(OutOfRange)
  {
  }

  /**
    Concretely: every key of the built-in table lacks a '-', so "en_US" throws when only
    "en_US.UTF-8" is installed, where the corrected chain finds that name.
  */
  lemma SizeGuardThrowsOnTableKey()
    ensures IsLocaleAvailableOnSystemSizeGuard({"en_US.UTF-8"}, "en_US") == Failure(OutOfRange)
    ensures IsLocaleAvailableOnSystem({"en_US.UTF-8"}, "en_US")
    ensures GetSystemLocaleNameSizeGuard({"en_US.UTF-8"}, "en_US") == Failure(OutOfRange)
    ensures GetSystemLocaleName({"en_US.UTF-8"}, "en_US") == "en_US.UTF-8"
  {
    assert FindHyphen("en_US").None?;
    assert "en_US" + UTF8_SUFFIX == "en_US.UTF-8";
  }

  /** Whenever the guarded chain returns, it agrees with the corrected chain. */
  lemma SizeGuardAgreesWhenItReturns(installed: set<string>, name: string)
    requires |name| < UINT32_MAX
    ensures IsLocaleAvailableOnSystemSizeGuard(installed, name).Success? ==>
      IsLocaleAvailableOnSystemSizeGuard(installed, name).value == IsLocaleAvailableOnSystem(installed, name)
    ensures GetSystemLocaleNameSizeGuard(installed, name).Success? ==>
      GetSystemLocaleNameSizeGuard(installed, name).value == GetSystemLocaleName(installed, name)
  {
  }

  // ---------------------------------------------------------------------------
  // The names a table lists, in its iteration order
  // ---------------------------------------------------------------------------

  /** The names of `order` the platform has, kept in the order of `order`. */
  function AvailableInOrder(installed: set<string>, order: seq<string>): seq<string>
    decreases |order|
  {
    if order == [] then []
    else
      var last := order[|order| - 1];
      AvailableInOrder(installed, order[..|order| - 1]) + (if IsLocaleAvailableOnSystem(installed, last) then [last] else [])
  }

  /** The listed names are exactly the available names of `order`. */
  lemma {:induction false} AvailableInOrderMembers(installed: set<string>, order: seq<string>)
    ensures forall k :: k in AvailableInOrder(installed, order) <==> k in order && IsLocaleAvailableOnSystem(installed, k)
    decreases |order|
  {
    if order != [] {
      var init := order[..|order| - 1];
      AvailableInOrderMembers(installed, init);
      assert order == init + [order[|order| - 1]];
    }
  }

  /** No name occurs twice. */
  predicate Distinct(s: seq<string>) {
    forall i, j :: 0 <= i < j < |s| ==> s[i] != s[j]
  }

  /** A listing without repetitions yields a result without repetitions. */
  lemma {:induction false} AvailableInOrderDistinct(installed: set<string>, order: seq<string>)
    requires Distinct(order)
    ensures Distinct(AvailableInOrder(installed, order))
    decreases |order|
  {
    if order != [] {
      var init := order[..|order| - 1];
      var last := order[|order| - 1];
      AvailableInOrderDistinct(installed, init);
      AvailableInOrderMembers(installed, init);
      assert last !in init by {
        forall j | 0 <= j < |init|
          ensures init[j] != last
        {
          assert init[j] == order[j];
        }
      }
      var front := AvailableInOrder(installed, init);
      if IsLocaleAvailableOnSystem(installed, last) {
        var r := front + [last];
        assert AvailableInOrder(installed, order) == r;
        forall i, j | 0 <= i < j < |r|
          ensures r[i] != r[j]
        {
          assert r[i] == front[i] && front[i] in front;
          if j < |front| {
            assert r[j] == front[j];
          } else {
            assert r[j] == last;
          }
        }
      } else {
        assert AvailableInOrder(installed, order) == front;
      }
    }
  }

  // ---------------------------------------------------------------------------
  // LocaleManager
  // ---------------------------------------------------------------------------

  /**
    A table entry: language and country names, then the three further strings and the flag the
    built-in entries are constructed with (locale.h, which names them, is not part of this model).
  */
  datatype LocaleItem = LocaleItem(language: string, country: string, details: seq<string>, flag: bool)

  /** The entry built for an English locale of the given country. */
  function English(country: string): (item: LocaleItem)
    ensures item.language == "english" && item.country == country
  {
    LocaleItem("english", country, ["", "", ""], false)
  }

  /** The ten locale IDs the manager registers. */
  const TABLE_KEYS: set<string> := {"en_AU", "en_CA", "en_DK", "en_GB", "en_IE",
                                    "en_IN", "en_NZ", "en_PH", "en_US", "en_ZA"}

  lemma TableHasTenKeys()
    ensures |TABLE_KEYS| == 10
  {
  }

  /** The table the manager's constructor fills in: the ten English locales. */
  function BuiltInTable(): (m: map<string, Option<LocaleItem>>)
    ensures m.Keys == TABLE_KEYS
    ensures forall k :: k in m ==> m[k].Some? && m[k].value.language == "english"
    ensures m["en_AU"] == Some(English("Australia")) && m["en_CA"] == Some(English("Canada"))
    ensures m["en_DK"] == Some(English("Denmark")) && m["en_GB"] == Some(English("United Kingdom"))
    ensures m["en_IE"] == Some(English("Ireland")) && m["en_IN"] == Some(English("India"))
    ensures m["en_NZ"] == Some(English("New Zealand")) && m["en_PH"] == Some(English("Philippines"))
    ensures m["en_US"] == Some(English("United States")) && m["en_ZA"] == Some(English("South Africa"))
  {
    map["en_AU" := Some(English("Australia")),
        "en_CA" := Some(English("Canada")),
        "en_DK" := Some(English("Denmark")),
        "en_GB" := Some(English("United Kingdom")),
        "en_IE" := Some(English("Ireland")),
        "en_IN" := Some(English("India")),
        "en_NZ" := Some(English("New Zealand")),
        "en_PH" := Some(English("Philippines")),
        "en_US" := Some(English("United States")),
        "en_ZA" := Some(English("South Africa"))]
  }

  /** Lists the names of a set, each once, in an order the caller cannot rely on. */
  method Enumerate(names: set<string>) returns (s: seq<string>)
    ensures Distinct(s)
    ensures forall k :: k in s <==> k in names
  {
    s := [];
    var remaining := names;
    while remaining != {}
      invariant remaining <= names
      invariant Distinct(s)
      invariant forall k :: k in s <==> k in names && k !in remaining
      decreases |remaining|
    {
      var k :| k in remaining;
      s := s + [k];
      remaining := remaining - {k};
    }
  }

  class LocaleManager {
    /** The locale table; `None` is a null `LocaleItem*`. */
    var locales: map<string, Option<LocaleItem>>
    /**
      The order in which iterating the `unordered_map` visits its keys. The standard leaves
      it unspecified, so no operation here promises a particular one.
    */
    var order: seq<string>

    /** The iteration order visits every key of the table exactly once. */
    predicate Valid()
      reads this
    {
      && Distinct(order)
      && (forall k :: k in order ==> k in locales)
      && (forall k :: k in locales ==> k in order)
    }

    /** Registers the ten English locales. */
    constructor ()
      ensures locales == BuiltInTable()
      ensures Valid()
    {
      var m := BuiltInTable();
      var keys := Enumerate(m.Keys);
      locales, order := m, keys;
    }

    /**
      `locales[name]`: the stored entry for a registered name; for any other name the
      subscript operator inserts a null entry under that name and returns it. An insertion
      may rehash the table, so the new iteration order is only known to visit every key once.
    */
    method GetLocaleId(name: string) returns (r: Option<LocaleItem>)
      modifies this
      ensures name in old(locales) ==> r == old(locales)[name] && locales == old(locales) && order == old(order)
      ensures name !in old(locales) ==> r == None && locales == old(locales)[name := None]
      ensures old(Valid()) ==> Valid()
    {
      if name !in locales {
        locales := locales[name := None];
        order := order + [name];
      }
      r := locales[name];
    }

    /**
      The registered names the platform has, in the table's iteration order; for a valid
      table, each such name exactly once.
    */
    method GetAvailableLocaleIDNames(installed: set<string>) returns (values: seq<string>)
      ensures values == AvailableInOrder(installed, order)
      ensures Valid() ==> Distinct(values)
      ensures Valid() ==> forall k :: k in values <==> k in locales && IsLocaleAvailableOnSystem(installed, k)
    {
      values := [];
      var i := 0;
      while i < |order|
        invariant 0 <= i <= |order|
        invariant values == AvailableInOrder(installed, order[..i])
      {
        assert order[..i + 1][..i] == order[..i];
        if IsLocaleAvailableOnSystem(installed, order[i]) {
          values := values + [order[i]];
        }
        i := i + 1;
      }
      assert order[..i] == order;
      AvailableInOrderMembers(installed, order);
      if Valid() {
        AvailableInOrderDistinct(installed, order);
      }
    }
  }
}
