/**
  The `flash.globalization.Collator` class: locale selection in its constructor, a
  three-way byte comparison (`compare`) and an equality test (`equals`) built on
  the counting walk `compareStrings`.

  Strings reach `compare` and `equals` as the bytes of their UTF-8 encoding.
  Character classification follows the "C" locale over ASCII; bytes from 128 up are
  neither symbols nor upper-case letters.
*/
module Collation {
  import opened Wrappers
  import opened BoundedInts
  import Locale

  type Byte = uint8

  const NO_ERROR: string := "noError"
  const USING_DEFAULT_WARNING: string := "usingDefaultWarning"
  /** The status the constructor leaves behind on every path. */
  const NO_ERROR_FINAL: string := "no_error"

  // ---------------------------------------------------------------------------
  // Character classification
  // ---------------------------------------------------------------------------

  /** `isspace`: space, tab, newline, vertical tab, form feed, carriage return. */
  predicate IsSpace(c: Byte) { c == 32 || 9 <= c <= 13 }

  /** `iswpunct`: the printable ASCII characters that are neither letters, digits nor space. */
  predicate IsPunct(c: Byte) { 33 <= c <= 47 || 58 <= c <= 64 || 91 <= c <= 96 || 123 <= c <= 126 }

  /** `iswcntrl`: the ASCII control characters. */
  predicate IsCntrl(c: Byte) { c <= 31 || c == 127 }

  predicate IsAlnum(c: Byte) { 48 <= c <= 57 || 65 <= c <= 90 || 97 <= c <= 122 }

  /** `Collator::isSymbol`: whitespace, punctuation and control characters. */
  predicate IsSymbol(c: Byte) {
    IsSpace(c) || IsPunct(c) || IsCntrl(c)
  }

  /** A symbol is exactly an ASCII character that is not a letter or a digit. */
  lemma SymbolIffAsciiNonAlnum(c: Byte)
    ensures IsSymbol(c) <==> c < 128 && !IsAlnum(c)
  {
  }

  /** `std::tolower`: maps 'A'..'Z' to 'a'..'z' and leaves every other byte alone. */
  function ToLower(c: Byte): (r: Byte)
    ensures !(65 <= r <= 90)
    ensures (65 <= c <= 90) ==> r == c + 32
    ensures !(65 <= c <= 90) ==> r == c
    ensures IsSymbol(r) <==> IsSymbol(c)
  {
    if 65 <= c <= 90 then c + 32 else c
  }

  /** The byte as `compareStrings` tests it: folding never turns a symbol into a non-symbol or back. */
  function Fold(c: Byte, ignoreCase: bool): (r: Byte)
    ensures !ignoreCase ==> r == c
    ensures IsSymbol(r) <==> IsSymbol(c)
  {
    if ignoreCase then ToLower(c) else c
  }

  // ---------------------------------------------------------------------------
  // From script strings to std::string
  // ---------------------------------------------------------------------------

  /**
    `std::string s = t.raw_buf()`: the string is built from a NUL-terminated buffer, so it
    holds the bytes before the first NUL and drops the rest.
  */
  function BeforeNul(s: seq<Byte>): (r: seq<Byte>)
    ensures |r| <= |s| && r == s[..|r|]
    ensures forall i :: 0 <= i < |r| ==> r[i] != 0
    ensures |r| < |s| ==> s[|r|] == 0
  {
    if s == [] || s[0] == 0 then []
    else [s[0]] + BeforeNul(s[1..])
  }

  /** A string without NUL bytes reaches the comparison whole. */
  lemma {:induction false} BeforeNulKeepsNulFree(s: seq<Byte>)
    requires forall i :: 0 <= i < |s| ==> s[i] != 0
    ensures BeforeNul(s) == s
  {
    if s != [] {
      BeforeNulKeepsNulFree(s[1..]);
    }
  }

  // ---------------------------------------------------------------------------
  // compare: byte-lexicographic order
  // ---------------------------------------------------------------------------

  /** `std::string`'s `<`: lexicographic on bytes read as unsigned, a proper prefix being smaller. */
  predicate LexLess(a: seq<Byte>, b: seq<Byte>)
    decreases |a|
  {
    if a == [] then b != []
    else if b == [] then false
    else if a[0] != b[0] then a[0] < b[0]
    else LexLess(a[1..], b[1..])
  }

  /** Reference characterisation: `a` is smaller at the first position where it differs from `b`. */
  lemma {:induction false} LexLessIffFirstDifference(a: seq<Byte>, b: seq<Byte>)
    ensures LexLess(a, b) <==>
      exists k :: 0 <= k <= |a| && k <= |b| && a[..k] == b[..k] &&
        ((k == |a| && k < |b|) || (k < |a| && k < |b| && a[k] < b[k]))
    decreases |a|
  {
    if a != [] && b != [] {
      LexLessIffFirstDifference(a[1..], b[1..]);
      if a[0] == b[0] {
        if LexLess(a, b) {
          var k :| 0 <= k <= |a[1..]| && k <= |b[1..]| && a[1..][..k] == b[1..][..k] &&
            ((k == |a[1..]| && k < |b[1..]|) || (k < |a[1..]| && k < |b[1..]| && a[1..][k] < b[1..][k]));
          assert a[..k + 1] == [a[0]] + a[1..][..k];
          assert b[..k + 1] == [b[0]] + b[1..][..k];
        }
        if exists k :: 0 <= k <= |a| && k <= |b| && a[..k] == b[..k] &&
             ((k == |a| && k < |b|) || (k < |a| && k < |b| && a[k] < b[k])) {
          var k :| 0 <= k <= |a| && k <= |b| && a[..k] == b[..k] &&
            ((k == |a| && k < |b|) || (k < |a| && k < |b| && a[k] < b[k]));
          assert k > 0;
          assert a[1..][..k - 1] == a[..k][1..];
          assert b[1..][..k - 1] == b[..k][1..];
        }
      } else {
        if a[0] < b[0] {
          assert a[..0] == b[..0];
        }
        forall k | 0 < k <= |a| && k <= |b|
          ensures a[..k] != b[..k]
        {
          assert a[..k][0] == a[0];
          assert b[..k][0] == b[0];
        }
      }
    } else if a == [] && b != [] {
      assert a[..0] == b[..0];
    }
  }

  lemma {:induction false} LexLessIrreflexive(a: seq<Byte>)
    ensures !LexLess(a, a)
    decreases |a|
  {
    if a != [] {
      LexLessIrreflexive(a[1..]);
    }
  }

  lemma {:induction false} LexLessAsymmetric(a: seq<Byte>, b: seq<Byte>)
    ensures LexLess(a, b) ==> !LexLess(b, a)
    decreases |a|
  {
    if a != [] && b != [] && a[0] == b[0] {
      LexLessAsymmetric(a[1..], b[1..]);
    }
  }

  lemma {:induction false} LexLessTotal(a: seq<Byte>, b: seq<Byte>)
    ensures a != b ==> LexLess(a, b) || LexLess(b, a)
    decreases |a|
  {
    if a != [] && b != [] && a[0] == b[0] {
      LexLessTotal(a[1..], b[1..]);
      if a[1..] == b[1..] {
        assert a == [a[0]] + a[1..] && b == [b[0]] + b[1..];
      }
    }
  }

  lemma {:induction false} LexLessTransitive(a: seq<Byte>, b: seq<Byte>, c: seq<Byte>)
    requires LexLess(a, b) && LexLess(b, c)
    ensures LexLess(a, c)
    decreases |a|
  {
    if a != [] && b != [] && c != [] && a[0] == b[0] == c[0] {
      LexLessTransitive(a[1..], b[1..], c[1..]);
    }
  }

  /** `compare`'s value: 1 when s1 > s2, -1 when s1 < s2, 0 otherwise. */
  function CompareBytes(s1: seq<Byte>, s2: seq<Byte>): (value: int)
    ensures value == 1 || value == 0 || value == -1
    ensures value == 1 <==> LexLess(s2, s1)
  {
    LexLessAsymmetric(s1, s2);
    if LexLess(s2, s1) then 1
    else if LexLess(s1, s2) then -1
    else 0
  }

  /** compare(a, b) is 0 exactly when the strings are equal. */
  lemma CompareZeroIffEqual(a: seq<Byte>, b: seq<Byte>)
    ensures CompareBytes(a, b) == 0 <==> a == b
  {
    LexLessIrreflexive(a);
    LexLessTotal(a, b);
  }

  /** Swapping the arguments negates the result. */
  lemma CompareAntisymmetric(a: seq<Byte>, b: seq<Byte>)
    ensures CompareBytes(a, b) == -CompareBytes(b, a)
  {
    LexLessAsymmetric(a, b);
    LexLessAsymmetric(b, a);
  }

  lemma CompareTransitive(a: seq<Byte>, b: seq<Byte>, c: seq<Byte>)
    requires CompareBytes(a, b) == -1 && CompareBytes(b, c) == -1
    ensures CompareBytes(a, c) == -1
  {
    LexLessTransitive(a, b, c);
    LexLessAsymmetric(a, c);
  }

  /**
    `compare` sees only the bytes before the first NUL: "a\0b" and "a\0c" compare equal,
    although as whole byte strings the first is smaller.
  */
  lemma CompareStopsAtNul()
    ensures CompareBytes(BeforeNul([97, 0, 98]), BeforeNul([97, 0, 99])) == 0
    ensures CompareBytes([97, 0, 98], [97, 0, 99]) == -1
  {
    assert BeforeNul([97, 0, 98]) == [97] == BeforeNul([97, 0, 99]);
    CompareZeroIffEqual([97], [97]);
    assert LexLess([97, 0, 98], [97, 0, 99]) by {
      assert [97, 0, 98][1..] == [0, 98] && [97, 0, 99][1..] == [0, 99];
      assert [0, 98][1..] == [98] && [0, 99][1..] == [99];
    }
    LexLessAsymmetric([97, 0, 98], [97, 0, 99]);
  }

  // ---------------------------------------------------------------------------
  // compareStrings: the counting walk behind `equals`
  // ---------------------------------------------------------------------------

  /**
    Reference meaning of `compareStrings`: walk both strings with a cursor each; with
    `ignoreSymbols`, a symbol under a cursor moves only that cursor; otherwise both cursors
    move on. A mismatched pair counts nothing. When one string runs out, the answer is the
    number of characters left under the two cursors.
  */
  function Unmatched(s1: seq<Byte>, s2: seq<Byte>, ignoreCase: bool, ignoreSymbols: bool): (r: nat)
    ensures r <= |s1| + |s2|
    decreases |s1| + |s2|
  {
    if s1 == [] || s2 == [] then |s1| + |s2|
    else
      var c1, c2 := Fold(s1[0], ignoreCase), Fold(s2[0], ignoreCase);
      if ignoreSymbols && (IsSymbol(c1) || IsSymbol(c2)) then
        Unmatched(if IsSymbol(c1) then s1[1..] else s1, if IsSymbol(c2) then s2[1..] else s2, ignoreCase, ignoreSymbols)
      else
        Unmatched(s1[1..], s2[1..], ignoreCase, ignoreSymbols)
  }

  /** Without `ignoreSymbols` the walk pairs the strings position by position: only the length difference counts. */
  lemma {:induction false} UnmatchedIsLengthDifference(s1: seq<Byte>, s2: seq<Byte>, ignoreCase: bool)
    ensures Unmatched(s1, s2, ignoreCase, false) == if |s1| >= |s2| then |s1| - |s2| else |s2| - |s1|
    decreases |s1|
  {
    if s1 != [] && s2 != [] {
      UnmatchedIsLengthDifference(s1[1..], s2[1..], ignoreCase);
    }
  }

  /** Lower-casing never changes whether a byte is a symbol, so `ignoreCase` has no effect on the count. */
  lemma {:induction false} UnmatchedIgnoresCase(s1: seq<Byte>, s2: seq<Byte>, ignoreSymbols: bool)
    ensures Unmatched(s1, s2, true, ignoreSymbols) == Unmatched(s1, s2, false, ignoreSymbols)
    decreases |s1| + |s2|
  {
    if s1 != [] && s2 != [] {
      var a, b := s1[0], s2[0];
      if ignoreSymbols && (IsSymbol(a) || IsSymbol(b)) {
        UnmatchedIgnoresCase(if IsSymbol(a) then s1[1..] else s1, if IsSymbol(b) then s2[1..] else s2, ignoreSymbols);
      } else {
        UnmatchedIgnoresCase(s1[1..], s2[1..], ignoreSymbols);
      }
    }
  }

  /** Every string equals itself: identical strings keep their cursors in step. */
  lemma {:induction false} UnmatchedReflexive(s: seq<Byte>, ignoreCase: bool, ignoreSymbols: bool)
    ensures Unmatched(s, s, ignoreCase, ignoreSymbols) == 0
    decreases |s|
  {
    if s != [] {
      UnmatchedReflexive(s[1..], ignoreCase, ignoreSymbols);
    }
  }

  /** The walk treats its two strings alike. */
  lemma {:induction false} UnmatchedSymmetric(s1: seq<Byte>, s2: seq<Byte>, ignoreCase: bool, ignoreSymbols: bool)
    ensures Unmatched(s1, s2, ignoreCase, ignoreSymbols) == Unmatched(s2, s1, ignoreCase, ignoreSymbols)
    decreases |s1| + |s2|
  {
    if s1 != [] && s2 != [] {
      var c1, c2 := Fold(s1[0], ignoreCase), Fold(s2[0], ignoreCase);
      if ignoreSymbols && (IsSymbol(c1) || IsSymbol(c2)) {
        UnmatchedSymmetric(if IsSymbol(c1) then s1[1..] else s1, if IsSymbol(c2) then s2[1..] else s2, ignoreCase, ignoreSymbols);
      } else {
        UnmatchedSymmetric(s1[1..], s2[1..], ignoreCase, ignoreSymbols);
      }
    }
  }

  /** The number of bytes of `s` that are not symbols. */
  function NonSymbols(s: seq<Byte>): (n: nat)
    ensures n <= |s|
  {
    if s == [] then 0 else (if IsSymbol(s[0]) then 0 else 1) + NonSymbols(s[1..])
  }

  /**
    With `ignoreSymbols`, the count is at least the difference in the number of non-symbols:
    the walk consumes non-symbols in pairs, so strings that compare equal have as many of them.
  */
  lemma {:induction false} UnmatchedBoundsNonSymbolDifference(s1: seq<Byte>, s2: seq<Byte>, ignoreCase: bool)
    ensures Unmatched(s1, s2, ignoreCase, true) >=
      (if NonSymbols(s1) >= NonSymbols(s2) then NonSymbols(s1) - NonSymbols(s2) else NonSymbols(s2) - NonSymbols(s1))
    decreases |s1| + |s2|
  {
    if s1 != [] && s2 != [] {
      var c1, c2 := Fold(s1[0], ignoreCase), Fold(s2[0], ignoreCase);
      assert IsSymbol(c1) == IsSymbol(s1[0]) && IsSymbol(c2) == IsSymbol(s2[0]);
      if IsSymbol(c1) || IsSymbol(c2) {
        UnmatchedBoundsNonSymbolDifference(if IsSymbol(c1) then s1[1..] else s1, if IsSymbol(c2) then s2[1..] else s2, ignoreCase);
      } else {
        UnmatchedBoundsNonSymbolDifference(s1[1..], s2[1..], ignoreCase);
      }
    }
  }

  // ---------------------------------------------------------------------------
  // compareStrings exactly as written
  // ---------------------------------------------------------------------------

  /** Reading `*string2It` once `string2It` has reached `string2.end()`. */
  datatype Fault = ReadPastEnd

  /**
    The loop as written tests `string1It != string2.end()`; an iterator into `string1`'s
    buffer never equals the end of `string2`'s, so only the first cursor bounds the loop,
    and the second cursor is dereferenced past its end when `string2` runs out first.
  */
  function CompareStringsAsWritten(s1: seq<Byte>, s2: seq<Byte>, ignoreCase: bool, ignoreSymbols: bool,
                                   i1: nat, i2: nat): Result<nat, Fault>
    requires i1 <= |s1| && i2 <= |s2|
    decreases |s1| - i1 + |s2| - i2
  {
    if i1 < |s1| then
      if i2 == |s2| then Failure(ReadPastEnd)
      else
        var c1, c2 := Fold(s1[i1], ignoreCase), Fold(s2[i2], ignoreCase);
        if ignoreSymbols && (IsSymbol(c1) || IsSymbol(c2)) then
          CompareStringsAsWritten(s1, s2, ignoreCase, ignoreSymbols,
                                  if IsSymbol(c1) then i1 + 1 else i1, if IsSymbol(c2) then i2 + 1 else i2)
        else
          CompareStringsAsWritten(s1, s2, ignoreCase, ignoreSymbols, i1 + 1, i2 + 1)
    else
      Success(|s2| - i2)
  }

  /** As written, comparing "a" with "" reads past the end of the empty string. */
  lemma CompareStringsAsWrittenOverruns()
    ensures CompareStringsAsWritten([97], [], false, false, 0, 0) == Failure(ReadPastEnd)
  {
  }

  /** As written, without `ignoreSymbols`, any first string longer than the second overruns. */
  lemma {:induction false} AsWrittenOverrunsWhenFirstLonger(s1: seq<Byte>, s2: seq<Byte>, ignoreCase: bool, i: nat)
    requires i <= |s2| < |s1|
    ensures CompareStringsAsWritten(s1, s2, ignoreCase, false, i, i) == Failure(ReadPastEnd)
    decreases |s2| - i
  {
    if i < |s2| {
      AsWrittenOverrunsWhenFirstLonger(s1, s2, ignoreCase, i + 1);
    }
  }

  /** Whenever the loop as written does not overrun, it computes the corrected count. */
  lemma {:induction false} AsWrittenAgreesWhenItReturns(s1: seq<Byte>, s2: seq<Byte>, ignoreCase: bool, ignoreSymbols: bool,
                                                         i1: nat, i2: nat)
    requires i1 <= |s1| && i2 <= |s2|
    ensures CompareStringsAsWritten(s1, s2, ignoreCase, ignoreSymbols, i1, i2).Success? ==>
      CompareStringsAsWritten(s1, s2, ignoreCase, ignoreSymbols, i1, i2).value == Unmatched(s1[i1..], s2[i2..], ignoreCase, ignoreSymbols)
    decreases |s1| - i1 + |s2| - i2
  {
    if i1 < |s1| && i2 < |s2| {
      var c1, c2 := Fold(s1[i1], ignoreCase), Fold(s2[i2], ignoreCase);
      assert s1[i1..][0] == s1[i1] && s2[i2..][0] == s2[i2];
      assert s1[i1..][1..] == s1[i1 + 1..] && s2[i2..][1..] == s2[i2 + 1..];
      if ignoreSymbols && (IsSymbol(c1) || IsSymbol(c2)) {
        AsWrittenAgreesWhenItReturns(s1, s2, ignoreCase, ignoreSymbols,
                                     if IsSymbol(c1) then i1 + 1 else i1, if IsSymbol(c2) then i2 + 1 else i2);
      } else {
        AsWrittenAgreesWhenItReturns(s1, s2, ignoreCase, ignoreSymbols, i1 + 1, i2 + 1);
      }
    }
  }

  // ---------------------------------------------------------------------------
  // The Collator object
  // ---------------------------------------------------------------------------

  class Collator {
    var requestedLocaleIDName: string
    var actualLocaleIDName: string
    var lastOperationStatus: string
    var initialMode: string
    var sortingMode: string
    /** The name the current locale was constructed from; `None` for the default locale. */
    var currlocale: Option<string>
    var ignoreCase: bool
    var ignoreCharacterWidth: bool
    var ignoreDiacritics: bool
    var ignoreKanaType: bool
    var ignoreSymbols: bool
    var numericComparison: bool

    /** A fresh object before its script constructor runs (collator.h is not part of this model). */
    constructor ()
      ensures requestedLocaleIDName == "" && actualLocaleIDName == "" && lastOperationStatus == ""
      ensures initialMode == "" && sortingMode == "" && currlocale == None
      ensures !ignoreCase && !ignoreCharacterWidth && !ignoreDiacritics && !ignoreKanaType
      ensures !ignoreSymbols && !numericComparison
    {
      requestedLocaleIDName, actualLocaleIDName, lastOperationStatus := "", "", "";
      initialMode, sortingMode, currlocale := "", "", None;
      ignoreCase, ignoreCharacterWidth, ignoreDiacritics := false, false, false;
      ignoreKanaType, ignoreSymbols, numericComparison := false, false, false;
    }

    /**
      The script constructor. Each of its three unpacking statements starts a new unpacker over
      the arguments, so all three fields receive the first argument. It then tries the requested
      name; with a '-', the name with that '-' replaced by '_' (the replacement edits
      `requestedLocaleIDName` itself) and that plus ".UTF-8"; without one, the name plus
      ".UTF-8", which is appended to `requestedLocaleIDName`. The status written on each path
      is overwritten by "no_error" at the end.
    */
    method Construct(first: string, installed: set<string>)
      modifies this
      ensures initialMode == first && sortingMode == first
      ensures requestedLocaleIDName ==
        if first in installed then first
        else if Locale.FindHyphen(first).Some? then Locale.Underscored(first)
        else first + Locale.UTF8_SUFFIX
      ensures Locale.AcceptedName(installed, first).Some? ==>
        currlocale == Locale.AcceptedName(installed, first) && actualLocaleIDName == requestedLocaleIDName
      ensures Locale.AcceptedName(installed, first).None? ==>
        currlocale == old(currlocale) && actualLocaleIDName == old(actualLocaleIDName)
      ensures lastOperationStatus == NO_ERROR_FINAL
      ensures ignoreCase == old(ignoreCase) && ignoreCharacterWidth == old(ignoreCharacterWidth)
      ensures ignoreDiacritics == old(ignoreDiacritics) && ignoreKanaType == old(ignoreKanaType)
      ensures ignoreSymbols == old(ignoreSymbols) && numericComparison == old(numericComparison)
    {
      Locale.AcceptedNameInOrder(installed, first);
      requestedLocaleIDName := first;
      initialMode := first;
      sortingMode := first;
      if requestedLocaleIDName in installed {
        currlocale := Some(requestedLocaleIDName);
        actualLocaleIDName := requestedLocaleIDName;
        lastOperationStatus := NO_ERROR;
      } else if Locale.FindHyphen(requestedLocaleIDName).Some? {
        requestedLocaleIDName := Locale.Underscored(requestedLocaleIDName);
        var l := requestedLocaleIDName;
        if l in installed {
          currlocale := Some(l);
          actualLocaleIDName := requestedLocaleIDName;
          lastOperationStatus := NO_ERROR;
        } else {
          l := l + Locale.UTF8_SUFFIX;
          if l in installed {
            currlocale := Some(l);
            actualLocaleIDName := requestedLocaleIDName;
            lastOperationStatus := NO_ERROR;
          } else {
            lastOperationStatus := USING_DEFAULT_WARNING;
          }
        }
      } else {
        requestedLocaleIDName := requestedLocaleIDName + Locale.UTF8_SUFFIX;
        if requestedLocaleIDName in installed {
          currlocale := Some(requestedLocaleIDName);
          actualLocaleIDName := requestedLocaleIDName;
          lastOperationStatus := NO_ERROR;
        } else {
          lastOperationStatus := USING_DEFAULT_WARNING;
        }
      }
      lastOperationStatus := NO_ERROR_FINAL;
    }

    /**
      `compareStrings` with the loop bounded by both cursors. Each pass advances at least one
      cursor (the `decreases` clause); a mismatched pair adds `char1 == char2`, that is nothing.
    */
    method CompareStrings(string1: seq<Byte>, string2: seq<Byte>) returns (result: int)
      ensures result == Unmatched(string1, string2, ignoreCase, ignoreSymbols)
    {
      result := 0;
      var i1, i2 := 0, 0;
      while i1 < |string1| && i2 < |string2|
        invariant 0 <= i1 <= |string1| && 0 <= i2 <= |string2|
        invariant result == 0
        invariant Unmatched(string1[i1..], string2[i2..], ignoreCase, ignoreSymbols) ==
                  Unmatched(string1, string2, ignoreCase, ignoreSymbols)
        decreases |string1| - i1 + |string2| - i2
      {
        var char1, char2 := string1[i1], string2[i2];
        assert string1[i1..][1..] == string1[i1 + 1..] && string2[i2..][1..] == string2[i2 + 1..];
        if ignoreCase {
          char1 := ToLower(char1);
          char2 := ToLower(char2);
        }
        if ignoreSymbols && (IsSymbol(char1) || IsSymbol(char2)) {
          if IsSymbol(char1) {
            i1 := i1 + 1;
          }
          if IsSymbol(char2) {
            i2 := i2 + 1;
          }
        } else {
          if char1 != char2 {
            result := result + (if char1 == char2 then 1 else 0);
          }
          i1 := i1 + 1;
          i2 := i2 + 1;
        }
      }
      // Count the characters left over in either string.
      while i1 < |string1|
        invariant i1 <= |string1|
        invariant result == i1 - |string1| + Unmatched(string1, string2, ignoreCase, ignoreSymbols) - (|string2| - i2)
      {
        result := result + 1;
        i1 := i1 + 1;
      }
      while i2 < |string2|
        invariant i2 <= |string2|
        invariant result == i2 - |string2| + Unmatched(string1, string2, ignoreCase, ignoreSymbols)
      {
        result := result + 1;
        i2 := i2 + 1;
      }
    }

    /**
      `compare`: the byte order of the two strings up to their first NUL bytes; the `ignore*`
      and numeric flags play no part.
    */
    method Compare(string1: seq<Byte>, string2: seq<Byte>) returns (value: int)
      modifies this`lastOperationStatus
      ensures value == CompareBytes(BeforeNul(string1), BeforeNul(string2))
      ensures lastOperationStatus == NO_ERROR
    {
      var s1, s2 := BeforeNul(string1), BeforeNul(string2);
      value := 0;
      if LexLess(s2, s1) {
        value := 1;
      } else if LexLess(s1, s2) {
        value := -1;
      }
      lastOperationStatus := NO_ERROR;
    }

    /** `equals`: true exactly when `compareStrings` counts nothing between the parts before the first NULs. */
    method Equals(string1: seq<Byte>, string2: seq<Byte>) returns (value: bool)
      modifies this`lastOperationStatus
      ensures value <==> Unmatched(BeforeNul(string1), BeforeNul(string2), ignoreCase, ignoreSymbols) == 0
      ensures lastOperationStatus == NO_ERROR
    {
      var s1, s2 := BeforeNul(string1), BeforeNul(string2);
      var n := CompareStrings(s1, s2);
      value := n == 0;
      lastOperationStatus := NO_ERROR;
    }
  }
}
