/**
 * Properties of locale resolution, stated over the pure specification of
 * `setLocale` and the constructor, and a lookup property of the class.
 */
module TranslationProperties {
  import opened Wrappers
  import opened Locales
  import opened Translation

  // ---------------------------------------------------------------------------
  // Every path of setLocale
  // ---------------------------------------------------------------------------

  /** Whatever the mode, a call only moves the active locale to an available
      locale, a load error leaves no content, and success leaves exactly the
      active locale's data as the content. */
  lemma {:induction false} SetLocaleSettles(env: Environment, s: State, requested: string)
    requires ValidState(s)
    ensures Settled(env, s, SetLocaleSpec(env, s, requested))
    decreases Rank(s, Normalize(requested)), 2
  {
    var l := Normalize(requested);
    NormalizeIdempotent(requested);
    var s1 := Remember(s, l);
    if !s1.automatic && s1.bufLocale.Some? && l == Auto {
      SetLocaleSettles(env, s1, s1.bufLocale.value);
      var o1 := SetLocaleSpec(env, s1, s1.bufLocale.value);
      if !o1.status.LoadFailed? {
        ConcludeSettles(env, o1.after, l);
      }
    } else {
      ConcludeSettles(env, s1, l);
    }
  }

  lemma {:induction false} ConcludeSettles(env: Environment, s: State, l: string)
    requires ValidState(s)
    ensures Settled(env, s, Conclude(env, s, l))
    decreases Rank(s, l), 1
  {
    if (!s.automatic || s.probing) && l != Auto && Available(s.table, env.files, l) {
    } else if !s.probing && s.automatic {
      ProbeSettles(env, s, BrowserLanguages(env.header), l);
    }
  }

  lemma {:induction false} ProbeSettles(env: Environment, s: State, candidates: seq<string>, l: string)
    requires ValidState(s) && s.automatic
    ensures Settled(env, s, ProbeCandidates(env, s, candidates, l))
    decreases 1, |candidates|
  {
    if candidates == [] {
      SetLocaleSettles(env, s.(probing := true), l);
    } else {
      SetLocaleSettles(env, s.(probing := true), candidates[0]);
      var o := SetLocaleSpec(env, s.(probing := true), candidates[0]);
      if !o.status.LoadFailed? && !o.status.ok {
        ProbeSettles(env, o.after, candidates[1..], l);
      }
    }
  }

  // ---------------------------------------------------------------------------
  // Explicit mode
  // ---------------------------------------------------------------------------

  /** The content a load leaves behind: the messages, or none after the error. */
  function LoadedContent(d: Loaded): Option<map<string, string>> {
    if d.Loaded? then Some(d.entries) else None
  }

  /** Explicit mode, concrete locale: the locale is remembered (outside a
      probe) and activated exactly when it is available; activation reports
      success or the load error of its data. */
  lemma ExplicitRequest(env: Environment, s: State, requested: string)
    requires ValidState(s) && !s.automatic && Normalize(requested) != Auto
    ensures var l := Normalize(requested);
            var o := SetLocaleSpec(env, s, requested);
            var d := LoadData(s.table, env.files, l);
            && o.after.bufLocale == (if s.probing then s.bufLocale else Some(l))
            && (Available(s.table, env.files, l) ==>
                  && o.after == Remember(s, l).(locale := l, content := LoadedContent(d))
                  && o.status == (if d.Loaded? then Returned(true) else LoadFailed))
            && (!Available(s.table, env.files, l) ==> o == Outcome(Returned(false), Remember(s, l)))
  {
    NormalizeIdempotent(requested);
  }

  /** Explicit mode, "auto" with a remembered locale: the remembered locale is
      set again (when available), but the call itself never reports success. */
  lemma BufferedFallback(env: Environment, s: State, requested: string)
    requires ValidState(s) && !s.automatic && s.bufLocale.Some? && Normalize(requested) == Auto
    ensures var b := s.bufLocale.value;
            var o := SetLocaleSpec(env, s, requested);
            var d := LoadData(s.table, env.files, b);
            && o.status != Returned(true)
            && o.after.bufLocale == s.bufLocale
            && (Available(s.table, env.files, b) ==>
                  && o.after == s.(locale := b, content := LoadedContent(d))
                  && (o.status.LoadFailed? <==> d.NotAnArray?))
            && (!Available(s.table, env.files, b) ==> o == Outcome(Returned(false), s))
  {
    var b := s.bufLocale.value;
    ExplicitRequest(env, s, b);
    assert Remember(s, b) == s;
  }

  /** Explicit mode, "auto" and nothing remembered: nothing happens. */
  lemma AutoWithoutBuffer(env: Environment, s: State, requested: string)
    requires ValidState(s) && !s.automatic && s.bufLocale.None? && Normalize(requested) == Auto
    ensures SetLocaleSpec(env, s, requested) == Outcome(Returned(false), s)
  {
  }

  // ---------------------------------------------------------------------------
  // Automatic mode
  // ---------------------------------------------------------------------------

  /** A request a probe can activate: concrete and available. */
  predicate Activatable(env: Environment, table: map<string, Value>, requested: string) {
    Normalize(requested) != Auto && Available(table, env.files, requested)
  }

  /** A probe (automatic mode, flag set) leaves the buffer and the flag alone
      and either activates its locale, or returns false changing nothing. */
  lemma ProbeCall(env: Environment, s: State, requested: string)
    requires ValidState(s) && s.automatic && s.probing
    ensures var l := Normalize(requested);
            var o := SetLocaleSpec(env, s, requested);
            && (Activatable(env, s.table, requested) ==> o == Activate(env, s, l))
            && (!Activatable(env, s.table, requested) ==> o == Outcome(Returned(false), s))
  {
    NormalizeIdempotent(requested);
  }

  /** Outside a probe, automatic mode always runs the round over the browser
      languages, even for a concrete, available request. */
  lemma AutomaticRequest(env: Environment, s: State, requested: string)
    requires ValidState(s) && s.automatic && !s.probing
    ensures var l := Normalize(requested);
            SetLocaleSpec(env, s, requested) ==
              ProbeCandidates(env, Remember(s, l), BrowserLanguages(env.header), l)
  {
  }

  /** The first activatable candidate wins the round: it becomes the active
      locale, the buffer is untouched, and the flag is cleared unless its data
      fails to load. */
  lemma {:induction false} FirstActivatableCandidateWins(env: Environment, s: State, candidates: seq<string>, l: string, k: nat)
    requires ValidState(s) && s.automatic
    requires k < |candidates| && Activatable(env, s.table, candidates[k])
    requires forall j :: 0 <= j < k ==> !Activatable(env, s.table, candidates[j])
    ensures var c := Normalize(candidates[k]);
            var o := ProbeCandidates(env, s, candidates, l);
            var d := LoadData(s.table, env.files, c);
            && o.after == s.(locale := c, content := LoadedContent(d), probing := d.NotAnArray?)
            && o.status == (if d.Loaded? then Returned(true) else LoadFailed)
    decreases k
  {
    if k == 0 {
      ProbeWins(env, s, candidates, l);
    } else {
      ProbeSkips(env, s, candidates, l);
      var sp := s.(probing := true);
      var rest := candidates[1..];
      assert rest[k - 1] == candidates[k];
      assert forall j :: 0 <= j < k - 1 ==> rest[j] == candidates[j + 1];
      FirstActivatableCandidateWins(env, sp, rest, l, k - 1);
      var c := Normalize(candidates[k]);
      var d := LoadData(s.table, env.files, c);
      assert sp.(locale := c, content := LoadedContent(d), probing := d.NotAnArray?)
          == s.(locale := c, content := LoadedContent(d), probing := d.NotAnArray?);
    }
  }

  /** A round whose first candidate is activatable ends with it. */
  lemma ProbeWins(env: Environment, s: State, candidates: seq<string>, l: string)
    requires ValidState(s) && s.automatic && candidates != [] && Activatable(env, s.table, candidates[0])
    ensures var c := Normalize(candidates[0]);
            var o := ProbeCandidates(env, s, candidates, l);
            var d := LoadData(s.table, env.files, c);
            && o.after == s.(locale := c, content := LoadedContent(d), probing := d.NotAnArray?)
            && o.status == (if d.Loaded? then Returned(true) else LoadFailed)
  {
    var sp := s.(probing := true);
    var c := Normalize(candidates[0]);
    ProbeCall(env, sp, candidates[0]);
    var o0 := SetLocaleSpec(env, sp, candidates[0]);
    assert o0 == Activate(env, sp, c);
    if LoadData(s.table, env.files, c).Loaded? {
      assert o0 == Outcome(Returned(true), sp.(locale := c, content := Some(LoadData(s.table, env.files, c).entries)));
    } else {
      assert o0 == Outcome(LoadFailed, sp.(locale := c, content := None));
    }
  }

  /** A candidate that is not activatable is skipped, and the rest of the
      round runs with the flag set. */
  lemma ProbeSkips(env: Environment, s: State, candidates: seq<string>, l: string)
    requires ValidState(s) && s.automatic && candidates != [] && !Activatable(env, s.table, candidates[0])
    ensures ProbeCandidates(env, s, candidates, l) == ProbeCandidates(env, s.(probing := true), candidates[1..], l)
  {
    ProbeCall(env, s.(probing := true), candidates[0]);
  }

  /** When no candidate is activatable, the round ends with the final attempt
      on the requested locale: it may switch the locale, but the call reports
      false (its result is discarded), and the flag is cleared unless the
      final load fails. */
  lemma {:induction false} NoActivatableCandidate(env: Environment, s: State, candidates: seq<string>, l: string)
    requires ValidState(s) && s.automatic
    requires forall j :: 0 <= j < |candidates| ==> !Activatable(env, s.table, candidates[j])
    ensures var o := ProbeCandidates(env, s, candidates, l);
            var c := Normalize(l);
            var d := LoadData(s.table, env.files, c);
            && o.status != Returned(true)
            && (Activatable(env, s.table, l) ==>
                  && o.after == s.(locale := c, content := LoadedContent(d), probing := d.NotAnArray?)
                  && (o.status.LoadFailed? <==> d.NotAnArray?))
            && (!Activatable(env, s.table, l) ==> o == Outcome(Returned(false), s.(probing := false)))
    decreases |candidates|
  {
    if candidates == [] {
      ProbeCall(env, s.(probing := true), l);
    } else {
      assert !Activatable(env, s.table, candidates[0]);
      ProbeCall(env, s.(probing := true), candidates[0]);
      var rest := candidates[1..];
      assert forall j :: 0 <= j < |rest| ==> rest[j] == candidates[j + 1];
      NoActivatableCandidate(env, s.(probing := true), rest, l);
    }
  }

  /** A round succeeds only on one of its candidates. */
  lemma {:induction false} ProbeSuccessIsCandidate(env: Environment, s: State, candidates: seq<string>, l: string)
    requires ValidState(s) && s.automatic
    ensures var o := ProbeCandidates(env, s, candidates, l);
            o.status == Returned(true) ==>
              exists k :: 0 <= k < |candidates| && o.after.locale == Normalize(candidates[k])
    decreases |candidates|
  {
    if candidates == [] {
      NoActivatableCandidate(env, s, [], l);
    } else if Activatable(env, s.table, candidates[0]) {
      ProbeWins(env, s, candidates, l);
    } else {
      ProbeSkips(env, s, candidates, l);
      var rest := candidates[1..];
      ProbeSuccessIsCandidate(env, s.(probing := true), rest, l);
      var r := ProbeCandidates(env, s.(probing := true), rest, l);
      if r.status == Returned(true) {
        var k :| 0 <= k < |rest| && r.after.locale == Normalize(rest[k]);
        assert rest[k] == candidates[k + 1];
      }
    }
  }

  /** In automatic mode a call that reports success always ends on one of the
      browser's languages, whatever locale was requested. */
  lemma AutomaticSuccessIsBrowserLanguage(env: Environment, s: State, requested: string)
    requires ValidState(s) && s.automatic && !s.probing
    ensures var o := SetLocaleSpec(env, s, requested);
            o.status == Returned(true) ==>
              exists c :: c in BrowserLanguages(env.header) && o.after.locale == Normalize(c)
  {
    var l := Normalize(requested);
    var cs := BrowserLanguages(env.header);
    AutomaticRequest(env, s, requested);
    ProbeSuccessIsCandidate(env, Remember(s, l), cs, l);
    var o := SetLocaleSpec(env, s, requested);
    if o.status == Returned(true) {
      var k :| 0 <= k < |cs| && o.after.locale == Normalize(cs[k]);
      assert cs[k] in cs;
    }
  }

  /** Without browser languages, automatic mode falls back to the requested
      locale itself, which is activated when it can be but never reported as
      a success. */
  lemma NoBrowserLanguages(env: Environment, s: State, requested: string)
    requires ValidState(s) && s.automatic && !s.probing && BrowserLanguages(env.header) == []
    ensures var l := Normalize(requested);
            var o := SetLocaleSpec(env, s, requested);
            var d := LoadData(s.table, env.files, l);
            && o.status != Returned(true)
            && (Activatable(env, s.table, l) ==>
                  && o.after == Remember(s, l).(locale := l, content := LoadedContent(d), probing := d.NotAnArray?)
                  && (o.status.LoadFailed? <==> d.NotAnArray?))
            && (!Activatable(env, s.table, l) ==> o == Outcome(Returned(false), Remember(s, l)))
  {
    var l := Normalize(requested);
    NormalizeIdempotent(requested);
    NoActivatableCandidate(env, Remember(s, l), [], l);
  }

  // ---------------------------------------------------------------------------
  // The code as written: the final attempt of a round without candidates
  // ---------------------------------------------------------------------------

  /** `setLocale(requested)` exactly as written, with at most `fuel` nested
      calls: `None` when the recursion goes deeper than that. It differs from
      `SetLocaleSpec` only in the final attempt of a round. */
  function SetLocaleAsWritten(env: Environment, s: State, requested: string, fuel: nat): (r: Option<Outcome>)
    ensures r.Some? ==> r.value.after.automatic == s.automatic && r.value.after.table == s.table
    decreases fuel, 0, 0
  {
    if fuel == 0 then None
    else
      var l := Normalize(requested);
      var s1 := Remember(s, l);
      if !s1.automatic && s1.bufLocale.Some? && l == Auto then
        match SetLocaleAsWritten(env, s1, s1.bufLocale.value, fuel - 1)
        case None => None
        case Some(o1) => if o1.status.LoadFailed? then Some(o1) else ConcludeAsWritten(env, o1.after, l, fuel - 1)
      else ConcludeAsWritten(env, s1, l, fuel - 1)
  }

  function ConcludeAsWritten(env: Environment, s: State, l: string, fuel: nat): (r: Option<Outcome>)
    ensures r.Some? ==> r.value.after.automatic == s.automatic && r.value.after.table == s.table
    decreases fuel, 2, 0
  {
    if (!s.automatic || s.probing) && l != Auto && Available(s.table, env.files, l) then
      Some(Activate(env, s, l))
    else if s.probing then Some(Outcome(Returned(false), s))
    else if s.automatic then RoundAsWritten(env, s, BrowserLanguages(env.header), l, fuel)
    else Some(Outcome(Returned(false), s))
  }

  /** The round as written: the final attempt `setLocale(l)` runs with the
      flag as the loop left it, which is still clear when the loop had no
      candidate at all. */
  function RoundAsWritten(env: Environment, s: State, candidates: seq<string>, l: string, fuel: nat): (r: Option<Outcome>)
    ensures r.Some? ==> r.value.after.automatic == s.automatic && r.value.after.table == s.table
    decreases fuel, 1, |candidates|
  {
    if candidates == [] then
      match SetLocaleAsWritten(env, s, l, fuel)
      case None => None
      case Some(o) => if o.status.LoadFailed? then Some(o) else Some(Outcome(Returned(false), o.after.(probing := false)))
    else
      match SetLocaleAsWritten(env, s.(probing := true), candidates[0], fuel)
      case None => None
      case Some(o) =>
        if o.status.LoadFailed? then Some(o)
        else if o.status.ok then Some(Outcome(Returned(true), o.after.(probing := false)))
        else RoundAsWritten(env, o.after, candidates[1..], l, fuel)
  }

  /** As written, automatic mode outside a probe and without browser
      languages never returns, however deep the recursion may go: the final
      call of the round starts over from the same mode, flag and request. */
  lemma {:induction false} NoCandidatesNeverEndAsWritten(env: Environment, s: State, requested: string, fuel: nat)
    requires s.automatic && !s.probing && BrowserLanguages(env.header) == []
    ensures SetLocaleAsWritten(env, s, requested, fuel) == None
    decreases fuel
  {
    if fuel > 0 {
      var l := Normalize(requested);
      NormalizeIdempotent(requested);
      var s1 := Remember(s, l);
      NoCandidatesNeverEndAsWritten(env, s1, l, fuel - 1);
      assert RoundAsWritten(env, s1, [], l, fuel - 1) == None;
    }
  }

  /** In every other case the code as written ends, given more nested calls
      than the request's rank (at most two), with exactly the outcome of the
      corrected `SetLocaleSpec`: the correction changes nothing in explicit
      mode, inside a probe, or when the header yields candidates. */
  lemma {:induction false} SetLocaleAgreesAsWritten(env: Environment, s: State, requested: string, fuel: nat)
    requires ValidState(s)
    requires !s.automatic || s.probing || BrowserLanguages(env.header) != []
    requires fuel > Rank(s, Normalize(requested))
    ensures SetLocaleAsWritten(env, s, requested, fuel) == Some(SetLocaleSpec(env, s, requested))
    decreases fuel, 0, 0
  {
    var l := Normalize(requested);
    NormalizeIdempotent(requested);
    var s1 := Remember(s, l);
    if !s1.automatic && s1.bufLocale.Some? && l == Auto {
      var b := s1.bufLocale.value;
      SetLocaleAgreesAsWritten(env, s1, b, fuel - 1);
      var o1 := SetLocaleSpec(env, s1, b);
      if !o1.status.LoadFailed? {
        ConcludeAgreesAsWritten(env, o1.after, l, fuel - 1);
      }
    } else {
      ConcludeAgreesAsWritten(env, s1, l, fuel - 1);
    }
  }

  lemma {:induction false} ConcludeAgreesAsWritten(env: Environment, s: State, l: string, fuel: nat)
    requires ValidState(s)
    requires !s.automatic || s.probing || BrowserLanguages(env.header) != []
    requires fuel >= Rank(s, l)
    ensures ConcludeAsWritten(env, s, l, fuel) == Some(Conclude(env, s, l))
    decreases fuel, 2, 0
  {
    if (!s.automatic || s.probing) && l != Auto && Available(s.table, env.files, l) {
    } else if !s.probing && s.automatic {
      RoundAgreesAsWritten(env, s, BrowserLanguages(env.header), l, fuel);
    }
  }

  lemma {:induction false} RoundAgreesAsWritten(env: Environment, s: State, candidates: seq<string>, l: string, fuel: nat)
    requires ValidState(s) && s.automatic && fuel >= 1
    requires s.probing || candidates != []
    ensures RoundAsWritten(env, s, candidates, l, fuel) == Some(ProbeCandidates(env, s, candidates, l))
    decreases fuel, 1, |candidates|
  {
    if candidates == [] {
      assert s.(probing := true) == s;
      SetLocaleAgreesAsWritten(env, s, l, fuel);
    } else {
      SetLocaleAgreesAsWritten(env, s.(probing := true), candidates[0], fuel);
      var o := SetLocaleSpec(env, s.(probing := true), candidates[0]);
      if !o.status.LoadFailed? && !o.status.ok {
        RoundAgreesAsWritten(env, o.after, candidates[1..], l, fuel);
      }
    }
  }

  // ---------------------------------------------------------------------------
  // Adding translations and construction
  // ---------------------------------------------------------------------------

  /** A locale just added with non-null content is available, and array
      content is what loading it yields. */
  lemma AddedLocaleIsAvailable(table: map<string, Value>, files: map<string, Value>, options: Options)
    requires options.content.Some? && options.locale.Some? && !options.content.value.Null?
    ensures var t := Added(table, options);
            && Available(t, files, options.locale.value)
            && (options.content.value.Array? ==>
                  LoadData(t, files, Normalize(options.locale.value)) == Loaded(options.content.value.entries))
  {
    NormalizeIdempotent(options.locale.value);
  }

  /** `new Translate(['content' => m, 'locale' => L, 'automatic' => false])`
      with a concrete `L` activates `L` with the messages `m`. */
  lemma ExplicitConstruction(env: Environment, m: map<string, string>, locale: string)
    requires Normalize(locale) != Auto
    ensures var o := Construction(env, Options(Some(Array(m)), Some(locale), Some(false)));
            var l := Normalize(locale);
            && o.status == Returned(true)
            && o.after == State(false, Some(l), Some(m), l, map[l := Array(m)], false)
  {
    var options := Options(Some(Array(m)), Some(locale), Some(false));
    var l := Normalize(locale);
    var s0 := Initial().(table := Added(map[], options), automatic := false);
    assert s0.table == map[l := Array(m)];
    AutoWithoutBuffer(env, s0, Auto);
    ExplicitRequest(env, s0, locale);
  }

  /** `new Translate()` without an Accept-Language header ends with the
      initial state and no content. */
  lemma DefaultConstructionWithoutHeader(files: map<string, Value>)
    ensures Construction(Environment(None, files), Options(None, None, None)) ==
              Outcome(Returned(false), Initial())
  {
    var env := Environment(None, files);
    assert Added(map[], Options(None, None, None)) == map[];
    NoBrowserLanguages(env, Initial(), Auto);
  }

  // ---------------------------------------------------------------------------
  // Lookup
  // ---------------------------------------------------------------------------

  /** After a successful `setLocale`, `translate` answers from the active
      locale's data, falling back to the message itself. */
  lemma TranslateAfterSuccess(env: Environment, s: State, requested: string, t: Translator, message: string)
    requires ValidState(s)
    requires SetLocaleSpec(env, s, requested).status == Returned(true)
    requires t.Snapshot() == SetLocaleSpec(env, s, requested).after
    ensures var d := LoadData(s.table, env.files, t.locale);
            && d.Loaded?
            && t.Translate(message) == if message in d.entries then d.entries[message] else message
  {
    SetLocaleSettles(env, s, requested);
  }
}
