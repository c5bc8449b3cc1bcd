/** The language setting of hooks/game.c: a value in memory, a copy in the config file, and the calls
    that keep them together. */
module Language {
  import opened Options
  import opened CText
  import opened ConfigFile
  import opened ConfigLaws
  import opened ConfigRoundTrip

  const LANGUAGE := "language"

  /** The languages the game has. */
  function Cap(n: int): int { if n < 0 || n > 6 then 0 else n }

  /* The specification */

  /** Memory, and the contents of the config file, if there is one. */
  datatype State = State(config: Settings, file: Option<string>)

  /** Restart leaves the program and starts it again. */
  datatype Call = GetLanguage | SetLanguage(lang: int) | Restart

  function Stored(c: Settings): int { Get(c.ints, LANGUAGE, 0) }

  function WithLanguage(c: Settings, lang: int): Settings { c.(ints := c.ints[LANGUAGE := lang]) }

  /** The first lines of main: read the file, or create it with the defaults. */
  function Boot(file: Option<string>, ff: FloatFormat): State {
    match file
    case Some(text) => State(ReadText(text, ff), file)
    case None => State(DEFAULTS, Some(WriteText(DEFAULTS, ff)))
  }

  function Step(s: State, call: Call, ff: FloatFormat): State {
    match call
    case GetLanguage => s.(config := WithLanguage(s.config, Cap(Stored(s.config))))
    case SetLanguage(lang) =>
      if Stored(s.config) == lang then s
      else State(WithLanguage(s.config, lang), Some(WriteText(WithLanguage(s.config, lang), ff)))
    case Restart => Boot(s.file, ff)
  }

  function Run(s: State, calls: seq<Call>, ff: FloatFormat): State {
    if calls == [] then s else Step(Run(s, calls[..|calls| - 1], ff), calls[|calls| - 1], ff)
  }

  /** Memory and file say the same, up to languages that do not exist: those memory may have capped
      without saving. */
  ghost predicate InStep(s: State, ff: FloatFormat) {
    && Readable(s.config) && s.file.Some?
    && var saved := ReadText(s.file.value, ff);
       && Readable(saved)
       && Cap(Stored(saved)) == Cap(Stored(s.config))
       && forall n | n in INT_VARS && n != LANGUAGE :: saved.ints[n] == s.config.ints[n]
  }

  /** The language the player chose last: by the last SetLanguage, or in the file. */
  function Chosen(calls: seq<Call>, initial: int): int {
    if calls == [] then initial
    else if calls[|calls| - 1].SetLanguage? then calls[|calls| - 1].lang
    else Chosen(calls[..|calls| - 1], initial)
  }

  /* The laws */

  lemma LanguageIsVariable()
    ensures LANGUAGE in INT_VARS
  {
    assert INT_VARS[6] == LANGUAGE;
  }

  lemma WithLanguageReadable(c: Settings, lang: int)
    requires Readable(c) && IsInt(lang)
    ensures Readable(WithLanguage(c, lang)) && Stored(WithLanguage(c, lang)) == lang
    ensures forall n | n in INT_VARS && n != LANGUAGE :: WithLanguage(c, lang).ints[n] == c.ints[n]
  {
    LanguageIsVariable();
  }

  /** Just saved. */
  lemma SavedInStep(c: Settings, ff: FloatFormat)
    requires Readable(c) && ff.Ok()
    ensures InStep(State(c, Some(WriteText(c, ff))), ff)
  {
    hide ReadText, WriteText, IsSpace;
    LanguageIsVariable();
    ReadBack(c, ff);
    ReadTextReadable(WriteText(c, ff), ff);
  }

  lemma DefaultsReadable()
    ensures Readable(DEFAULTS)
  {
    DefaultKeys();
  }

  lemma BootInStep(file: Option<string>, ff: FloatFormat)
    requires ff.Ok()
    ensures InStep(Boot(file, ff), ff)
    ensures file.Some? ==> Boot(file, ff) == State(ReadText(file.value, ff), file)
  {
    hide ReadText, WriteText;
    match file
    case Some(text) => ReadTextReadable(text, ff);
    case None =>
      DefaultsReadable();
      SavedInStep(DEFAULTS, ff);
  }

  lemma StepInStep(s: State, call: Call, ff: FloatFormat)
    requires InStep(s, ff) && ff.Ok() && (call.SetLanguage? ==> IsInt(call.lang))
    ensures InStep(Step(s, call, ff), ff)
    ensures Cap(Stored(Step(s, call, ff).config)) == if call.SetLanguage? then Cap(call.lang) else Cap(Stored(s.config))
  {
    hide ReadText, WriteText, Readable;
    match call
    case GetLanguage =>
      WithLanguageReadable(s.config, Cap(Stored(s.config)));
    case SetLanguage(lang) =>
      WithLanguageReadable(s.config, lang);
      SavedInStep(WithLanguage(s.config, lang), ff);
    case Restart =>
      BootInStep(s.file, ff);
  }

  /** Over any run from program start, restarts included: memory and file stay in step, and the
      language in force is the one chosen last. */
  lemma {:induction false} RunKeepsLanguage(file: Option<string>, calls: seq<Call>, ff: FloatFormat)
    requires ff.Ok() && forall c | c in calls && c.SetLanguage? :: IsInt(c.lang)
    ensures var s := Run(Boot(file, ff), calls, ff);
            && InStep(s, ff)
            && Cap(Stored(s.config)) == Cap(Chosen(calls, Stored(Boot(file, ff).config)))
            && Cap(Stored(ReadText(s.file.value, ff))) == Cap(Stored(s.config))
    // languages 1 to 6 are stored as chosen; 0, or one that does not exist, as 0 or one that does not exist
    ensures var s, chosen := Run(Boot(file, ff), calls, ff), Chosen(calls, Stored(Boot(file, ff).config));
            var saved := Stored(ReadText(s.file.value, ff));
            && (1 <= chosen <= 6 ==> Stored(s.config) == chosen == saved)
            && (!(1 <= chosen <= 6) ==> !(1 <= Stored(s.config) <= 6) && !(1 <= saved <= 6))
  {
    hide InStep, Boot, Step, ReadText;
    if calls == [] {
      BootInStep(file, ff);
    } else {
      var rest, call := calls[..|calls| - 1], calls[|calls| - 1];
      assert call in calls;
      RunKeepsLanguage(file, rest, ff);
      StepInStep(Run(Boot(file, ff), rest, ff), call, ff);
    }
    FileInStep(Run(Boot(file, ff), calls, ff), ff);
  }

  /** A language that is chosen is stored as it is when every choice, and the file at the start, is one of
      the seven. */
  lemma {:induction false} RunStoresLanguage(file: Option<string>, calls: seq<Call>, ff: FloatFormat)
    requires ff.Ok() && 0 <= Stored(Boot(file, ff).config) <= 6
    requires forall c | c in calls && c.SetLanguage? :: 0 <= c.lang <= 6
    ensures var s, chosen := Run(Boot(file, ff), calls, ff), Chosen(calls, Stored(Boot(file, ff).config));
            && 0 <= chosen <= 6 && Stored(s.config) == chosen
            && s.file.Some? && Stored(ReadText(s.file.value, ff)) == chosen
  {
    hide Boot, Step, ReadText, InStep;
    BootStored(file, ff);
    if calls != [] {
      var rest, call := calls[..|calls| - 1], calls[|calls| - 1];
      assert call in calls;
      RunStoresLanguage(file, rest, ff);
      RunKeepsLanguage(file, rest, ff);
      StepStores(Run(Boot(file, ff), rest, ff), call, ff);
    }
  }

  lemma BootStored(file: Option<string>, ff: FloatFormat)
    requires ff.Ok()
    ensures var s := Boot(file, ff); s.file.Some? && Stored(ReadText(s.file.value, ff)) == Stored(s.config)
  {
    hide ReadText, WriteText, Readable, Stored;
    if file.None? {
      DefaultsReadable();
      ReadsBack(DEFAULTS, ff);
    }
  }

  lemma StepStores(s: State, call: Call, ff: FloatFormat)
    requires InStep(s, ff) && ff.Ok() && (call.SetLanguage? ==> 0 <= call.lang <= 6)
    requires 0 <= Stored(s.config) <= 6 && Stored(ReadText(s.file.value, ff)) == Stored(s.config)
    ensures var n, chosen := Step(s, call, ff), if call.SetLanguage? then call.lang else Stored(s.config);
            Stored(n.config) == chosen && n.file.Some? && Stored(ReadText(n.file.value, ff)) == chosen
  {
    hide ReadText, WriteText, Readable;
    LanguageIsVariable();
    match call
    case GetLanguage =>
    case SetLanguage(lang) =>
      WithLanguageReadable(s.config, lang);
      ReadsBack(WithLanguage(s.config, lang), ff);
    case Restart =>
  }

  lemma ReadsBack(c: Settings, ff: FloatFormat)
    requires Readable(c) && ff.Ok()
    ensures Stored(ReadText(WriteText(c, ff), ff)) == Stored(c)
  {
    hide ReadText, WriteText, IsSpace;
    ReadBack(c, ff);
  }

  /** Otherwise English can be chosen and not be stored: from a file with language 9, one look caps the
      language in memory, choosing English then changes nothing, and the next start finds the 9 again. */
  lemma EnglishNotStored(text: string, ff: FloatFormat)
    requires ff.Ok() && Stored(ReadText(text, ff)) == 9
    ensures var calls := [Call.GetLanguage, Call.SetLanguage(0), Restart];
            Chosen(calls, 9) == 0 && Stored(Run(Boot(Some(text), ff), calls, ff).config) == 9
  {
    hide ReadText, WriteText;
    var s0 := Boot(Some(text), ff);
    var s1 := Step(s0, Call.GetLanguage, ff);
    var s2 := Step(s1, Call.SetLanguage(0), ff);
    var calls := [Call.GetLanguage, Call.SetLanguage(0), Restart];
    assert calls[..2] == [Call.GetLanguage, Call.SetLanguage(0)] && calls[..2][..1] == [Call.GetLanguage];
    assert calls[..2][..1][..0] == [];
    assert Run(s0, calls[..2][..1], ff) == s1 && Run(s0, calls[..2], ff) == s2;
    assert Chosen(calls, 9) == Chosen(calls[..2], 9);
  }

  /** There is such a file: the defaults with language 9. */
  lemma NineIsRead(ff: FloatFormat)
    requires ff.Ok()
    ensures Stored(ReadText(WriteText(WithLanguage(DEFAULTS, 9), ff), ff)) == 9
  {
    hide ReadText, WriteText, Readable;
    DefaultsReadable();
    WithLanguageReadable(DEFAULTS, 9);
    ReadsBack(WithLanguage(DEFAULTS, 9), ff);
  }

  /** No call changes anything but the language. */
  lemma StepKeepsRest(s: State, call: Call, ff: FloatFormat)
    requires !call.Restart?
    ensures var n := Step(s, call, ff);
            && n.config.floats == s.config.floats && n.config.modFile == s.config.modFile
            && forall name | name != LANGUAGE :: (name in n.config.ints <==> name in s.config.ints)
                 && (name in s.config.ints ==> n.config.ints[name] == s.config.ints[name])
  {
    hide WriteText;
  }

  lemma FileInStep(s: State, ff: FloatFormat)
    requires InStep(s, ff)
    ensures s.file.Some? && Cap(Stored(ReadText(s.file.value, ff))) == Cap(Stored(s.config))
  {
  }

  /* The program */

  class Game {
    const config: Config
    const ff: FloatFormat
    var file: Option<string>

    constructor (config: Config, ff: FloatFormat, file: Option<string>)
      ensures this.config == config && this.ff == ff && this.file == file
    {
      this.config := config;
      this.ff := ff;
      this.file := file;
    }

    function Value(): State
      reads this, config
    {
      State(config.Value(), file)
    }

    /** The start of main. */
    method Start()
      modifies this, config
      ensures Value() == Boot(old(file), ff)
      ensures old(file).Some? ==> file == old(file) && config.Value() == ReadText(file.value, ff)
      ensures old(file).None? ==> file == Some(WriteText(config.Value(), ff)) && config.Value() == DEFAULTS
    {
      hide ReadText, WriteText;
      var res := config.ReadConfig(file, ff);
      if res < 0 {
        var text := config.WriteConfig(ff);
        file := Some(text);
      }
    }

    /** GetAndroidCurrentLanguage */
    method GetLanguage() returns (lang: int)
      requires LANGUAGE in config.ints
      modifies config
      ensures Value() == Step(old(Value()), Call.GetLanguage, ff)
      ensures 0 <= lang <= 6 && config.ints[LANGUAGE] == lang
      ensures 0 <= old(config.ints[LANGUAGE]) <= 6 ==> lang == old(config.ints[LANGUAGE]) && Value() == old(Value())
      ensures !(0 <= old(config.ints[LANGUAGE]) <= 6) ==> lang == 0 && Value().file == old(Value()).file
    {
      if config.ints[LANGUAGE] < 0 || config.ints[LANGUAGE] > 6 {
        config.ints := config.ints[LANGUAGE := 0];
      }
      lang := config.ints[LANGUAGE];
      SameValue(old(config.ints), LANGUAGE);
    }

    /** SetAndroidCurrentLanguage */
    method SetLanguage(lang: int)
      requires LANGUAGE in config.ints
      modifies this, config
      ensures Value() == Step(old(Value()), Call.SetLanguage(lang), ff)
      ensures config.ints == old(config.ints)[LANGUAGE := lang]
      ensures old(config.ints[LANGUAGE]) == lang ==> Value() == old(Value())
      ensures old(config.ints[LANGUAGE]) != lang ==> file == Some(WriteText(config.Value(), ff))
    {
      hide WriteText;
      if config.ints[LANGUAGE] != lang {
        config.ints := config.ints[LANGUAGE := lang];
        var text := config.WriteConfig(ff);
        file := Some(text);
      }
    }
  }

  lemma SameValue(m: map<string, int>, n: string)
    requires n in m
    ensures m[n := m[n]] == m
  {
  }
}
