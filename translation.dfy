/**
 * The Translate class: a translation table keyed by locale, the locale
 * resolution of `setLocale` (explicit mode, automatic mode probing the
 * browser's languages, the buffered preferred locale) and message lookup.
 *
 * The file system and the Accept-Language header are inputs of the object
 * (an `Environment`): a file exists when its path is a key of `files`, and
 * `require`-ing it yields the value stored there.
 *
 * `setLocale` is first given as a pure function over a snapshot of the
 * object's fields (`SetLocaleSpec`); the class method `SetLocale` is proved
 * to compute exactly that function, and the properties of resolution are
 * lemmas about it.
 */
module Translation {
  import opened Wrappers
  import opened Locales

  /** The directory scanned for `<locale>.php` files (class constant LANGUAGE_PATH). */
  const LanguagePath: string := "languages"

  /** The file consulted for a locale that has no table entry. */
  function DefaultPath(locale: string): string {
    LanguagePath + "/" + locale + ".php"
  }

  /** The PHP values the table, the options and the files can hold: an array
      of messages, a string (for a table entry, the path of a data file), or null. */
  datatype Value = Array(entries: map<string, string>) | Str(s: string) | Null

  /** PHP `empty()` on a table entry. */
  predicate IsEmpty(v: Value) {
    match v
    case Null => true
    case Array(entries) => |entries| == 0
    case Str(s) => s == "" || s == "0"
  }

  /** PHP `isset($table[key])`: the key is present and not null. */
  predicate IsSet(table: map<string, Value>, key: string) {
    key in table && !table[key].Null?
  }

  /** What lies outside the object: the Accept-Language header (absent when
      the request has none) and the file system. */
  datatype Environment = Environment(header: Option<string>, files: map<string, Value>)

  /** The options array of the constructor and of `addTranslation`; a field is
      `None` when its key is absent. */
  datatype Options = Options(content: Option<Value>, locale: Option<string>, automatic: Option<bool>)

  /** The translation table after `addTranslation(options)`. */
  function Added(table: map<string, Value>, options: Options): (r: map<string, Value>)
    ensures options.content.Some? && options.locale.Some? ==>
              var key := Normalize(options.locale.value);
              && r.Keys == table.Keys + {key}
              && r[key] == options.content.value
              && forall k :: k in table && k != key ==> r[k] == table[k]
    ensures !(options.content.Some? && options.locale.Some?) ==> r == table
  {
    if options.content.Some? && options.locale.Some? then
      table[Normalize(options.locale.value) := options.content.value]
    else table
  }

  /** `isAvailable(locale)`: the normalised locale has a set table entry, or its default file exists. */
  function Available(table: map<string, Value>, files: map<string, Value>, locale: string): bool {
    var l := Normalize(locale);
    IsSet(table, l) || DefaultPath(l) in files
  }

  /** The outcome of `_loadTranslationData`: the messages, or the exception
      raised when the data found is not an array. */
  datatype Loaded = Loaded(entries: map<string, string>) | NotAnArray

  /** The messages a file yields, if it exists and returns an array. */
  function FromFile(files: map<string, Value>, path: string): Loaded {
    if path in files && files[path].Array? then Loaded(files[path].entries) else NotAnArray
  }

  /** `_loadTranslationData(locale)`: a table array is used as it is; a table
      string is the path of a data file; without a set entry the default file
      of the locale is read. Anything that is not an array in the end fails. */
  function LoadData(table: map<string, Value>, files: map<string, Value>, locale: string): (r: Loaded)
    ensures IsSet(table, locale) && table[locale].Array? ==> r == Loaded(table[locale].entries)
    ensures IsSet(table, locale) && table[locale].Str? ==> r == FromFile(files, table[locale].s)
    ensures !IsSet(table, locale) ==> r == FromFile(files, DefaultPath(locale))
  {
    var data := if IsSet(table, locale) then table[locale] else Str(DefaultPath(locale));
    match data
    case Array(entries) => Loaded(entries)
    case Str(path) => FromFile(files, path)
    case Null => NotAnArray
  }

  // ---------------------------------------------------------------------------
  // The resolver's state and the specification of setLocale
  // ---------------------------------------------------------------------------

  /** A snapshot of the object's fields; `probing` is the function-level
      `static $automaticMode` flag of `setLocale`. */
  datatype State = State(
    automatic: bool,
    bufLocale: Option<string>,
    content: Option<map<string, string>>,
    locale: string,
    table: map<string, Value>,
    probing: bool)

  /** The fields' initial values. */
  function Initial(): State {
    State(true, None, None, Auto, map[], false)
  }

  /** The buffered locale is always a normalised concrete locale. */
  predicate ValidState(s: State) {
    s.bufLocale.Some? ==> Normalize(s.bufLocale.value) == s.bufLocale.value && s.bufLocale.value != Auto
  }

  /** How a call ends: it returns a boolean, or the load error propagates. */
  datatype Status = Returned(ok: bool) | LoadFailed

  datatype Outcome = Outcome(status: Status, after: State)

  /** Outside a probe, a concrete request is remembered in the buffer. */
  function Remember(s: State, l: string): State {
    if !s.probing && l != Auto then s.(bufLocale := Some(l)) else s
  }

  /** The depth of recursion a call can still start: an automatic round (2)
      calls probes (0), the buffer fallback (1) one explicit call (0). */
  function Rank(s: State, l: string): nat {
    if s.automatic && !s.probing then 2 else if !s.automatic && l == Auto then 1 else 0
  }

  /** Activating a locale: `_locale` is assigned first, then the data is loaded into `_content`. */
  function Activate(env: Environment, s: State, l: string): (o: Outcome)
    ensures o.after == s.(locale := l, content := o.after.content)
  {
    match LoadData(s.table, env.files, l)
    case Loaded(m) => Outcome(Returned(true), s.(locale := l, content := Some(m)))
    case NotAnArray => Outcome(LoadFailed, s.(locale := l, content := None))
  }

  /** What no call of `setLocale` changes: the mode and the table. */
  predicate Framed(s: State, o: Outcome) {
    ValidState(o.after) && o.after.automatic == s.automatic && o.after.table == s.table
  }

  /** What every call of `setLocale` guarantees about the locale and the
      content, on every path (proved in `SetLocaleSettles`). */
  predicate Settled(env: Environment, s: State, o: Outcome) {
    // the active locale only ever moves to an available locale
    (o.after.locale != s.locale ==> Available(s.table, env.files, o.after.locale))
    // a load error leaves the new locale in place and no content
    && (o.status.LoadFailed? ==>
          o.after.content.None? && LoadData(s.table, env.files, o.after.locale).NotAnArray?)
    // success means the active content is exactly the active locale's data
    && (o.status == Returned(true) ==>
          && Available(s.table, env.files, o.after.locale)
          && o.after.content.Some?
          && LoadData(s.table, env.files, o.after.locale) == Loaded(o.after.content.value))
  }

  /** `setLocale(requested)` from state `s`. */
  function SetLocaleSpec(env: Environment, s: State, requested: string): (o: Outcome)
    requires ValidState(s)
    ensures Framed(s, o)
    ensures o.after.bufLocale == Remember(s, Normalize(requested)).bufLocale
    ensures Rank(s, Normalize(requested)) < 2 ==> o.after.probing == s.probing
    ensures Rank(s, Normalize(requested)) == 2 ==> o.after.probing == o.status.LoadFailed?
    decreases Rank(s, Normalize(requested)), 2
  {
    var l := Normalize(requested);
    NormalizeIdempotent(requested);
    var s1 := Remember(s, l);
    if !s1.automatic && s1.bufLocale.Some? && l == Auto then
      // the buffered-locale fallback: its result is discarded, its error is not
      var o1 := SetLocaleSpec(env, s1, s1.bufLocale.value);
      if o1.status.LoadFailed? then o1 else Conclude(env, o1.after, l)
    else Conclude(env, s1, l)
  }

  /** The rest of `setLocale(l)` once the buffer is handled: activate `l`, or
      give up inside a probe, or run the automatic round. */
  function Conclude(env: Environment, s: State, l: string): (o: Outcome)
    requires ValidState(s)
    ensures Framed(s, o)
    ensures o.after.bufLocale == s.bufLocale
    ensures Rank(s, l) < 2 ==> o.after.probing == s.probing
    ensures Rank(s, l) == 2 ==> o.after.probing == o.status.LoadFailed?
    decreases Rank(s, l), 1
  {
    if (!s.automatic || s.probing) && l != Auto && Available(s.table, env.files, l) then
      Activate(env, s, l)
    else if s.probing then Outcome(Returned(false), s)
    else if s.automatic then ProbeCandidates(env, s, BrowserLanguages(env.header), l)
    else Outcome(Returned(false), s)
  }

  /** The automatic round over the remaining `candidates`, each tried as a
      probe; when none is left, the final attempt `setLocale(l)`, also made as
      a probe, whose result is discarded. */
  function ProbeCandidates(env: Environment, s: State, candidates: seq<string>, l: string): (o: Outcome)
    requires ValidState(s) && s.automatic
    ensures Framed(s, o)
    ensures o.after.bufLocale == s.bufLocale
    ensures o.after.probing == o.status.LoadFailed?
    decreases 1, |candidates|
  {
    if candidates == [] then
      var o := SetLocaleSpec(env, s.(probing := true), l);
      if o.status.LoadFailed? then o else Outcome(Returned(false), o.after.(probing := false))
    else
      var o := SetLocaleSpec(env, s.(probing := true), candidates[0]);
      if o.status.LoadFailed? then o
      else if o.status.ok then Outcome(Returned(true), o.after.(probing := false))
      else ProbeCandidates(env, o.after, candidates[1..], l)
  }

  /** The locale the constructor requests: its `locale` option, or "auto". */
  function RequestedLocale(options: Options): string {
    if options.locale.Some? then options.locale.value else Auto
  }

  /** The constructor: `addTranslation(options)`, then `setAutomatic` when the
      option is given, then `setLocale`; an error ends it early. */
  function Construction(env: Environment, options: Options): (o: Outcome)
    ensures ValidState(o.after)
    ensures o.after.table == Added(map[], options)
    ensures o.after.automatic == (options.automatic != Some(false))
  {
    var s0 := Initial().(table := Added(map[], options));
    var o1 := if options.automatic.Some?
              then SetLocaleSpec(env, s0.(automatic := options.automatic.value), Auto)
              else Outcome(Returned(false), s0);
    if o1.status.LoadFailed? then o1
    else SetLocaleSpec(env, o1.after, RequestedLocale(options))
  }

  // ---------------------------------------------------------------------------
  // The class
  // ---------------------------------------------------------------------------

  class Translator {
    const header: Option<string>
    const files: map<string, Value>

    var automatic: bool
    var bufLocale: Option<string>
    var content: Option<map<string, string>>
    var locale: string
    var translations: map<string, Value>
    /** The `static $automaticMode` flag of `setLocale`. */
    var automaticMode: bool

    function Env(): Environment {
      Environment(header, files)
    }

    function Snapshot(): State
      reads this
    {
      State(automatic, bufLocale, content, locale, translations, automaticMode)
    }

    predicate Valid()
      reads this
    {
      ValidState(Snapshot())
    }

    /** The object with its fields' initial values, before the constructor body runs. */
    constructor (header: Option<string>, files: map<string, Value>)
      ensures this.header == header && this.files == files
      ensures Snapshot() == Initial()
    {
      this.header := header;
      this.files := files;
      automatic := true;
      bufLocale := None;
      content := None;
      locale := Auto;
      translations := map[];
      automaticMode := false;
    }

    /** `new Translate(options)`: `error` reports the load error the body raised. */
    static method New(options: Options, header: Option<string>, files: map<string, Value>)
      returns (t: Translator, error: bool)
      ensures fresh(t) && t.header == header && t.files == files && t.Valid()
      ensures var o := Construction(Environment(header, files), options);
              t.Snapshot() == o.after && error == o.status.LoadFailed?
    {
      ghost var env := Environment(header, files);
      t := new Translator(header, files);
      var _ := t.AddTranslation(options);
      ghost var s0 := Initial().(table := Added(map[], options));
      assert t.Snapshot() == s0;
      ghost var o1 := Outcome(Returned(false), s0);
      if options.automatic.Some? {
        o1 := SetLocaleSpec(env, s0.(automatic := options.automatic.value), Auto);
        error := t.SetAutomatic(options.automatic.value);
        assert t.Snapshot() == o1.after;
        if error {
          return;
        }
      }
      assert Construction(env, options) == SetLocaleSpec(env, o1.after, RequestedLocale(options));
      var status := t.SetLocale(RequestedLocale(options));
      error := status.LoadFailed?;
    }

    /** `addTranslation(options)`: stores the content under the normalised
        locale, replacing an existing entry, when both keys are given. */
    method AddTranslation(options: Options) returns (added: bool)
      modifies this`translations
      ensures added <==> options.content.Some? && options.locale.Some?
      ensures translations == Added(old(translations), options)
    {
      if options.content.Some? && options.locale.Some? {
        var key := Normalize(options.locale.value);
        translations := translations[key := options.content.value];
        return true;
      }
      return false;
    }

    /** `getList()`: null when no entry has non-empty content, otherwise the
        locales with non-empty content, each mapped to itself. */
    method GetList() returns (list: Option<map<string, string>>)
      ensures list.None? <==> forall k :: k in translations ==> IsEmpty(translations[k])
      ensures list.Some? ==> forall k :: k in list.value <==> k in translations && !IsEmpty(translations[k])
      ensures list.Some? ==> forall k :: k in list.value ==> list.value[k] == k
    {
      var pending := translations.Keys;
      list := None;
      while pending != {}
        invariant pending <= translations.Keys
        invariant list.None? <==> forall k :: k in translations && k !in pending ==> IsEmpty(translations[k])
        invariant list.Some? ==>
                    forall k :: k in list.value <==> k in translations && k !in pending && !IsEmpty(translations[k])
        invariant list.Some? ==> forall k :: k in list.value ==> list.value[k] == k
        decreases pending
      {
        var key :| key in pending;
        if !IsEmpty(translations[key]) {
          list := Some(if list.None? then map[key := key] else list.value[key := key]);
        }
        pending := pending - {key};
      }
    }

    /** `getLocale()`. */
    function GetLocale(): (r: string)
      reads this
      ensures r == locale
    {
      locale
    }

    /** `isAvailable(locale)`: a capability probe that changes nothing. */
    function IsAvailable(requested: string): (r: bool)
      reads this
      ensures r <==> IsSet(translations, Normalize(requested)) || DefaultPath(Normalize(requested)) in files
    {
      Available(translations, files, requested)
    }

    /** `setAutomatic(flag)`: sets the mode, then re-resolves with `setLocale()`. */
    method SetAutomatic(flag: bool) returns (error: bool)
      requires Valid()
      modifies this
      ensures var o := SetLocaleSpec(Env(), old(Snapshot()).(automatic := flag), Auto);
              Snapshot() == o.after && error == o.status.LoadFailed?
    {
      automatic := flag;
      var status := SetLocale(Auto);
      error := status.LoadFailed?;
    }

    /** `setLocale(requested)`: normalise, remember an explicit choice, fall
        back to the remembered choice when asked for "auto" outside automatic
        mode, then conclude with `ApplyLocale`. */
    method SetLocale(requested: string) returns (status: Status)
      requires Valid()
      modifies this
      ensures Outcome(status, Snapshot()) == SetLocaleSpec(Env(), old(Snapshot()), requested)
      decreases Rank(Snapshot(), Normalize(requested)), 1
    {
      ghost var s0 := Snapshot();
      var l := Normalize(requested);
      NormalizeIdempotent(requested);
      if !automaticMode && l != Auto {
        bufLocale := Some(l);
      }
      assert Snapshot() == Remember(s0, l);
      if !automatic && bufLocale.Some? && l == Auto {
        var inner := SetLocale(bufLocale.value);
        if inner.LoadFailed? {
          return LoadFailed;
        }
      }
      assert SetLocaleSpec(Env(), s0, requested) == Conclude(Env(), Snapshot(), l);
      status := ApplyLocale(l);
    }

    /** The second half of `setLocale`: activate `l` when it may be activated
        and is available, otherwise start the automatic round when one is due. */
    method ApplyLocale(l: string) returns (status: Status)
      requires Valid()
      modifies this
      ensures Outcome(status, Snapshot()) == Conclude(Env(), old(Snapshot()), l)
      decreases Rank(Snapshot(), l), 0
    {
      if (!automatic || automaticMode) && l != Auto && IsAvailable(l) {
        locale := l;
        var loaded := LoadTranslationData(l);
        if loaded.NotAnArray? {
          return LoadFailed;
        }
        content := Some(loaded.entries);
        return Returned(true);
      }
      if automaticMode {
        return Returned(false);
      }
      if automatic {
        status := AutomaticRound(l);
        return;
      }
      return Returned(false);
    }

    /** The automatic round of `setLocale(l)`: each browser language is tried
        as a probe, with the flag set; the first that succeeds ends the round.
        Otherwise a final attempt `setLocale(l)` runs, also with the flag set,
        and its result is discarded. The flag is set before the final attempt
        even when there are no browser languages; the code as written leaves it
        clear there (see `TranslationProperties.RoundAsWritten`). */
    method AutomaticRound(l: string) returns (status: Status)
      requires Valid() && automatic && !automaticMode
      modifies this
      ensures Outcome(status, Snapshot()) == ProbeCandidates(Env(), old(Snapshot()), BrowserLanguages(header), l)
      decreases 1, 0
    {
      var languages := GetBrowserLanguages();
      ghost var target := ProbeCandidates(Env(), Snapshot(), languages, l);
      assert target == ProbeCandidates(Env(), old(Snapshot()), BrowserLanguages(header), l);
      var i := 0;
      while i < |languages|
        invariant 0 <= i <= |languages|
        invariant Valid() && automatic
        invariant ProbeCandidates(Env(), Snapshot(), languages[i..], l) == target
      {
        ghost var before := Snapshot();
        ghost var rest := languages[i..];
        assert rest[0] == languages[i] && rest[1..] == languages[i + 1..];
        automaticMode := true;
        assert Snapshot() == before.(probing := true);
        var probe := SetLocale(languages[i]);
        ghost var o := SetLocaleSpec(Env(), before.(probing := true), languages[i]);
        assert Outcome(probe, Snapshot()) == o;
        assert target == if o.status.LoadFailed? then o
                         else if o.status.ok then Outcome(Returned(true), o.after.(probing := false))
                         else ProbeCandidates(Env(), o.after, languages[i + 1..], l);
        if probe.LoadFailed? {
          return LoadFailed;
        }
        if probe.ok {
          automaticMode := false;
          assert Snapshot() == o.after.(probing := false);
          return Returned(true);
        }
        assert Snapshot() == o.after && !o.status.ok;
        assert Rank(before.(probing := true), Normalize(languages[i])) == 0;
        assert o.after.probing && o.after.automatic && ValidState(o.after);
        assert ProbeCandidates(Env(), Snapshot(), languages[i + 1..], l) == target;
        i := i + 1;
      }
      // the final attempt with the requested locale, as a probe; its result is discarded
      ghost var before := Snapshot();
      assert languages[i..] == [];
      automaticMode := true;
      ghost var o := SetLocaleSpec(Env(), before.(probing := true), l);
      assert target == if o.status.LoadFailed? then o else Outcome(Returned(false), o.after.(probing := false));
      var final := SetLocale(l);
      if final.LoadFailed? {
        return LoadFailed;
      }
      automaticMode := false;
      assert Snapshot() == o.after.(probing := false);
      return Returned(false);
    }

    /** `translate(message)`: the active content's text for the key, or the key itself. */
    function Translate(message: string): (r: string)
      reads this
      ensures content.Some? && message in content.value ==> r == content.value[message]
      ensures !(content.Some? && message in content.value) ==> r == message
    {
      if content.Some? && message in content.value then content.value[message] else message
    }

    /** `_(message)`, the short alias of `translate`. */
    function Underscore(message: string): (r: string)
      reads this
      ensures r == Translate(message)
    {
      Translate(message)
    }

    /** `_getBrowserLanguages()`: the parsing loop rewrites each entry of the
        exploded header in place, unsetting it when it reads "auto". */
    method GetBrowserLanguages() returns (languages: seq<string>)
      ensures languages == BrowserLanguages(header)
    {
      if header.None? {
        return [];
      }
      var entries := Split(header.value, ',');
      var slots: seq<Option<string>> := seq(|entries|, k requires 0 <= k < |entries| => Some(entries[k]));
      for i := 0 to |slots|
        invariant |slots| == |entries|
        invariant forall k :: 0 <= k < i ==> slots[k] == Tag(entries[k])
        invariant forall k :: i <= k < |slots| ==> slots[k] == Some(entries[k])
      {
        var code := Prefix(Split(slots[i].value, ';')[0], 2);
        slots := slots[i := if code == Auto then None else Some(code)];
      }
      assert slots == Tags(entries);
      languages := Distinct(Values(slots));
    }

    /** `_loadTranslationData(locale)`: clears `_content`, loads, and stores
        the result in `_content` when it is an array. */
    method LoadTranslationData(l: string) returns (loaded: Loaded)
      modifies this`content
      ensures loaded == LoadData(translations, files, l)
      ensures content == (if loaded.Loaded? then Some(loaded.entries) else None)
    {
      content := None;
      var data := if IsSet(translations, l) then translations[l] else Str(DefaultPath(l));
      if !data.Array? && data.Str? && data.s in files {
        data := files[data.s];
      }
      if !data.Array? {
        return NotAnArray;
      }
      content := Some(data.entries);
      return Loaded(data.entries);
    }
  }
}
