/**
 * String helpers of the Translate class: the locale normalisation
 * `strtolower(trim(...))` applied to every locale it receives, PHP's
 * `explode`, and the parsing of the Accept-Language header into candidate
 * language codes.
 */
module Locales {
  import opened Wrappers

  /** The locale that asks for automatic resolution. */
  const Auto: string := "auto"

  // ---------------------------------------------------------------------------
  // Normalisation: strtolower(trim(s))
  // ---------------------------------------------------------------------------

  /** The characters PHP's `trim` strips by default: space, tab, line feed,
      carriage return, NUL and vertical tab. */
  predicate IsBlank(c: char) {
    c == ' ' || c == '\t' || c == '\n' || c == '\r' || c == '\0' || c == '\U{B}'
  }

  /** Strips leading blanks: what is left does not start with a blank
      (`TrimLeftRemovesBlanks` says what was removed). */
  function TrimLeft(s: string): (r: string)
    ensures |r| <= |s|
    ensures r == [] || !IsBlank(r[0])
    decreases |s|
  {
    if s != [] && IsBlank(s[0]) then TrimLeft(s[1..]) else s
  }

  /** Strips trailing blanks: what is left does not end with a blank and
      starts where `s` does (`TrimRightRemovesBlanks` says what was removed). */
  function TrimRight(s: string): (r: string)
    ensures |r| <= |s|
    ensures r == [] || r[0] == s[0]
    ensures r == [] || !IsBlank(r[|r| - 1])
    decreases |s|
  {
    if s != [] && IsBlank(s[|s| - 1]) then TrimRight(s[..|s| - 1]) else s
  }

  /** `TrimLeft` removes a prefix of blanks and nothing else. */
  lemma {:induction false} TrimLeftRemovesBlanks(s: string)
    ensures var r := TrimLeft(s);
            && r == s[|s| - |r|..]
            && forall i :: 0 <= i < |s| - |r| ==> IsBlank(s[i])
    decreases |s|
  {
    if s != [] && IsBlank(s[0]) {
      TrimLeftRemovesBlanks(s[1..]);
      var r := TrimLeft(s);
      forall i | 0 <= i < |s| - |r| ensures IsBlank(s[i]) {
        if i > 0 {
          assert s[i] == s[1..][i - 1];
        }
      }
    }
  }

  /** `TrimRight` removes a suffix of blanks and nothing else. */
  lemma {:induction false} TrimRightRemovesBlanks(s: string)
    ensures var r := TrimRight(s);
            && r == s[..|r|]
            && forall i :: |r| <= i < |s| ==> IsBlank(s[i])
    decreases |s|
  {
    if s != [] && IsBlank(s[|s| - 1]) {
      var t := s[..|s| - 1];
      TrimRightRemovesBlanks(t);
      var r := TrimRight(s);
      assert r == t[..|r|];
      forall i | |r| <= i < |s| ensures IsBlank(s[i]) {
        if i < |s| - 1 {
          assert s[i] == t[i];
        }
      }
    }
  }

  /** PHP `trim`: neither end of the result is a blank. */
  function Trim(s: string): (r: string)
    ensures |r| <= |s|
    ensures r == [] || (!IsBlank(r[0]) && !IsBlank(r[|r| - 1]))
  {
    var t := TrimLeft(s);
    var r := TrimRight(t);
    assert r != [] ==> r[0] == t[0];
    r
  }

  /** `Trim` keeps a slice of `s` and removes only blanks around it. */
  lemma TrimRemovesBlanks(s: string)
    ensures var a := |s| - |TrimLeft(s)|;
            var r := Trim(s);
            && a + |r| <= |s|
            && r == s[a..a + |r|]
            && (forall i :: 0 <= i < a ==> IsBlank(s[i]))
            && (forall i :: a + |r| <= i < |s| ==> IsBlank(s[i]))
  {
    var t := TrimLeft(s);
    var a := |s| - |t|;
    TrimLeftRemovesBlanks(s);
    TrimRightRemovesBlanks(t);
    var r := Trim(s);
    assert t == s[a..];
    assert r == t[..|r|] == s[a..a + |r|];
    forall i | a + |r| <= i < |s| ensures IsBlank(s[i]) {
      assert s[i] == t[i - a] && |r| <= i - a < |t|;
    }
  }

  /** PHP `strtolower` on one character: ASCII letters only. */
  /** ASCII `strtolower` on one character: an upper-case letter becomes its
      lower-case letter, everything else is kept. */
  function LowerChar(c: char): (r: char)
    ensures !('A' <= r <= 'Z')
    ensures r == c || ('A' <= c <= 'Z' && 'a' <= r <= 'z')
  {
    if 'A' <= c <= 'Z' then (c as int + 32) as char else c
  }

  function Lower(s: string): (r: string)
    ensures |r| == |s|
  {
    seq(|s|, i requires 0 <= i < |s| => LowerChar(s[i]))
  }

  /** `strtolower` leaves no upper-case letter, so lowering twice changes nothing. */
  lemma LowerLeavesNoUpperCase(s: string)
    ensures forall i :: 0 <= i < |s| ==> !('A' <= Lower(s)[i] <= 'Z')
    ensures Lower(Lower(s)) == Lower(s)
  {
    assert forall i :: 0 <= i < |s| ==> Lower(s)[i] == LowerChar(s[i]);
  }

  /** The normal form of a locale identifier: lower case, no surrounding blanks. */
  function Normalize(s: string): (r: string)
    ensures |r| <= |s|
  {
    Lower(Trim(s))
  }

  /** Normalising twice is normalising once: a locale stored by the class
      (already normalised) is found again when it is normalised on lookup. */
  lemma NormalizeIdempotent(s: string)
    ensures Normalize(Normalize(s)) == Normalize(s)
  {
  }

  // ---------------------------------------------------------------------------
  // explode
  // ---------------------------------------------------------------------------

  /** PHP `explode(sep, s)`: the pieces between separators; never empty. */
  function Split(s: string, sep: char): (parts: seq<string>)
    ensures |parts| >= 1
    ensures forall i :: 0 <= i < |parts| ==> sep !in parts[i]
    decreases |s|
  {
    if s == [] then [""]
    else
      var rest := Split(s[1..], sep);
      if s[0] == sep then [""] + rest
      else [[s[0]] + rest[0]] + rest[1..]
  }

  /** PHP `implode(sep, parts)`. */
  function Join(parts: seq<string>, sep: char): string
    requires |parts| >= 1
    decreases |parts|
  {
    if |parts| == 1 then parts[0] else parts[0] + [sep] + Join(parts[1..], sep)
  }

  /** Splitting loses nothing: the pieces joined by the separator give back the input. */
  lemma {:induction false} SplitJoin(s: string, sep: char)
    ensures Join(Split(s, sep), sep) == s
    decreases |s|
  {
    if s != [] {
      var rest := Split(s[1..], sep);
      SplitJoin(s[1..], sep);
      if s[0] == sep {
        assert Split(s, sep)[1..] == rest;
      } else {
        var parts := Split(s, sep);
        if |rest| > 1 {
          assert parts[1..] == rest[1..];
          assert Join(rest, sep) == rest[0] + [sep] + Join(rest[1..], sep);
        }
      }
    }
  }

  // ---------------------------------------------------------------------------
  // Accept-Language parsing
  // ---------------------------------------------------------------------------

  /** PHP `substr(s, 0, n)`. */
  function Prefix(s: string, n: nat): (r: string)
    ensures |r| == (if |s| <= n then |s| else n) && r == s[..|r|]
  {
    if |s| <= n then s else s[..n]
  }

  /** The code one header entry contributes: the part before the first `;`,
      cut to two characters. */
  function Code(entry: string): (r: string)
    ensures |r| <= 2 && ';' !in r
  {
    Prefix(Split(entry, ';')[0], 2)
  }

  /** An entry after the rewrite of the parsing loop: its code, or a hole
      where the code was "auto" and the slot was unset. */
  function Tag(entry: string): Option<string> {
    var c := Code(entry);
    if c == Auto then None else Some(c)
  }

  function Tags(entries: seq<string>): (r: seq<Option<string>>)
    ensures |r| == |entries|
  {
    seq(|entries|, i requires 0 <= i < |entries| => Tag(entries[i]))
  }

  function Codes(entries: seq<string>): (r: seq<string>)
    ensures |r| == |entries|
  {
    seq(|entries|, i requires 0 <= i < |entries| => Code(entries[i]))
  }

  /** PHP `array_values` over an array with holes: the present values, in order. */
  function Values(slots: seq<Option<string>>): (r: seq<string>)
    ensures |r| <= |slots|
    decreases |slots|
  {
    if slots == [] then []
    else
      var front := Values(slots[..|slots| - 1]);
      match slots[|slots| - 1]
      case None => front
      case Some(v) => front + [v]
  }

  /** `array_values` keeps exactly the present values: a value is in the
      result if and only if some slot holds it. */
  lemma {:induction false} ValuesArePresent(slots: seq<Option<string>>)
    ensures forall v :: v in Values(slots) <==> Some(v) in slots
    decreases |slots|
  {
    if slots != [] {
      var n := |slots| - 1;
      ValuesArePresent(slots[..n]);
      assert slots == slots[..n] + [slots[n]];
    }
  }

  /** `array_values` keeps the present values in their order: the value of
      slot `i` lands right after the values of the slots before it. */
  lemma {:induction false} ValuesInOrder(slots: seq<Option<string>>, i: nat)
    requires i < |slots| && slots[i].Some?
    ensures var k := |Values(slots[..i])|;
            k < |Values(slots)| && Values(slots)[k] == slots[i].value
    decreases |slots|
  {
    var n := |slots| - 1;
    if i < n {
      assert slots[..n][..i] == slots[..i];
      ValuesInOrder(slots[..n], i);
    } else {
      assert slots[..i] == slots[..n];
    }
  }

  /** The "auto" filter of the parsing loop can never fire: a code has at most
      two characters, so no slot is ever unset. */
  lemma {:induction false} AutoFilterNeverFires(entries: seq<string>)
    ensures Values(Tags(entries)) == Codes(entries)
    decreases |entries|
  {
    if entries != [] {
      var n := |entries| - 1;
      AutoFilterNeverFires(entries[..n]);
      assert Tags(entries)[..n] == Tags(entries[..n]);
      assert Codes(entries) == Codes(entries[..n]) + [Code(entries[n])];
      assert Tags(entries)[n] == Some(Code(entries[n]));
    }
  }

  /** Every code has at most two characters, so none is "auto". */
  lemma CodesAreShort(entries: seq<string>)
    ensures forall x :: x in Codes(entries) ==> |x| <= 2 && x != Auto
  {
    forall x | x in Codes(entries) ensures |x| <= 2 && x != Auto {
      var i :| 0 <= i < |entries| && Codes(entries)[i] == x;
      assert |Code(entries[i])| <= 2;
    }
  }

  predicate NoDuplicates(xs: seq<string>) {
    forall i, j :: 0 <= i < j < |xs| ==> xs[i] != xs[j]
  }

  /** The position of the first occurrence of `x` in `xs`. */
  function IndexOf(xs: seq<string>, x: string): (k: nat)
    requires x in xs
    ensures k < |xs| && xs[k] == x
    ensures forall i :: 0 <= i < k ==> xs[i] != x
  {
    if xs[0] == x then 0 else 1 + IndexOf(xs[1..], x)
  }

  /** Dropping a last element keeps the first occurrence of everything before it. */
  lemma IndexOfInPrefix(xs: seq<string>, x: string)
    requires |xs| > 0 && x in xs[..|xs| - 1]
    ensures IndexOf(xs, x) == IndexOf(xs[..|xs| - 1], x)
  {
    var k := IndexOf(xs[..|xs| - 1], x);
    var j := IndexOf(xs, x);
    assert xs[k] == x;
    assert j <= k;
    assert xs[..|xs| - 1][j] == x;
  }

  /** PHP `array_values(array_unique(xs))`: each value once, at its first occurrence. */
  function Distinct(xs: seq<string>): (r: seq<string>)
    ensures forall x :: x in r <==> x in xs
    ensures NoDuplicates(r)
    ensures forall i, j :: 0 <= i < j < |r| ==> IndexOf(xs, r[i]) < IndexOf(xs, r[j])
    decreases |xs|
  {
    if xs == [] then []
    else
      var front := Distinct(xs[..|xs| - 1]);
      DistinctStep(xs, front);
      if xs[|xs| - 1] in front then front else front + [xs[|xs| - 1]]
  }

  /** One step of `Distinct`: the last element is kept only when it is new. */
  lemma DistinctStep(xs: seq<string>, front: seq<string>)
    requires |xs| > 0
    requires forall x :: x in front <==> x in xs[..|xs| - 1]
    requires NoDuplicates(front)
    requires forall i, j :: 0 <= i < j < |front| && front[i] in xs[..|xs| - 1] && front[j] in xs[..|xs| - 1] ==>
      IndexOf(xs[..|xs| - 1], front[i]) < IndexOf(xs[..|xs| - 1], front[j])
    ensures var r := if xs[|xs| - 1] in front then front else front + [xs[|xs| - 1]];
      (forall x :: x in r <==> x in xs) &&
      NoDuplicates(r) &&
      (forall i, j :: 0 <= i < j < |r| ==> IndexOf(xs, r[i]) < IndexOf(xs, r[j]))
  {
    var n := |xs| - 1;
    assert forall x :: x in xs ==> x in xs[..n] || x == xs[n];
    forall i | 0 <= i < |front|
      ensures front[i] in xs[..n] && front[i] in xs && IndexOf(xs, front[i]) == IndexOf(xs[..n], front[i]) < n
    {
      assert front[i] in front;
      IndexOfInPrefix(xs, front[i]);
    }
    if xs[n] !in front {
      assert xs[n] !in xs[..n];
      assert IndexOf(xs, xs[n]) == n;
      var r := front + [xs[n]];
      assert forall i :: 0 <= i < |front| ==> r[i] == front[i];
    }
  }

  /**
   * The candidate languages of an Accept-Language header: split on `,`, each
   * entry cut before its first `;` and to two characters, duplicates removed.
   * Without a header there are none.
   */
  function BrowserLanguages(header: Option<string>): (r: seq<string>)
    ensures header.None? ==> r == []
    ensures forall i :: 0 <= i < |r| ==> |r[i]| <= 2
    ensures Auto !in r
    ensures NoDuplicates(r)
  {
    match header
    case None => []
    case Some(h) =>
      CandidatesAreShort(h);
      Distinct(Values(Tags(Split(h, ','))))
  }

  lemma CandidatesAreShort(h: string)
    ensures forall x :: x in Distinct(Values(Tags(Split(h, ',')))) ==> |x| <= 2
  {
    var entries := Split(h, ',');
    AutoFilterNeverFires(entries);
    CodesAreShort(entries);
  }

  /** The candidates are exactly the codes of the header's entries, in the
      order in which each code first occurs. */
  lemma BrowserLanguagesOrder(h: string)
    ensures var codes := Codes(Split(h, ','));
            var r := BrowserLanguages(Some(h));
            && (forall x :: x in r <==> x in codes)
            && (forall i, j :: 0 <= i < j < |r| ==> IndexOf(codes, r[i]) < IndexOf(codes, r[j]))
  {
    AutoFilterNeverFires(Split(h, ','));
  }

  /** No candidate normalises to "auto": normalising never makes a string longer. */
  lemma CandidateIsConcrete(header: Option<string>, c: string)
    requires c in BrowserLanguages(header)
    ensures Normalize(c) != Auto
  {
  }
}
