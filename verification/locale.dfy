/** The locale resolver (src/shared/locale.ts): one precedence chain, two
    persistence disciplines, threaded through the config file state. */
module LocaleResolver {
  import opened Wrappers
  import opened Json
  import opened Types
  import opened Config

  /** `LocaleConfig`: the caller's optional fallback. */
  datatype LocaleConfig = LocaleConfig(fallback: Option<Locale>)

  /** One resolver call: the locale returned, whether `writeConfig` was
      called, and the file afterwards. */
  datatype Resolution = Resolution(locale: Locale, writeAttempted: bool, file: FileState)

  /** `isValidLocale(config.locale) ? config.locale : undefined`. */
  function StoredLocale(d: Document): (r: Option<Locale>)
    ensures r.Some? <==> IsValidLocale(LocaleField(d))
    ensures r.Some? ==> LocaleField(d) == Some(Str(r.value))
  {
    match LocaleField(d)
    case Some(Str(s)) => if s in SupportedLocales then Some(s) else None
    case _ => None
  }

  /** All candidates before position `i` are absent. */
  predicate AbsentBefore(candidates: seq<Option<Locale>>, i: nat)
    requires i <= |candidates|
  {
    forall j :: 0 <= j < i ==> candidates[j].None?
  }

  /** A `??` chain over `candidates`, ending in `last`. */
  function FirstPresent(candidates: seq<Option<Locale>>, last: Locale): Locale
  {
    if |candidates| == 0 then last
    else OrElse(candidates[0], FirstPresent(candidates[1..], last))
  }

  /** The meaning of a `??` chain: the first present candidate, with none
      present before it, or `last` when no candidate is present. */
  lemma {:induction false} FirstPresentIsFirst(candidates: seq<Option<Locale>>, last: Locale)
    ensures var r := FirstPresent(candidates, last);
            || (exists i :: 0 <= i < |candidates| && candidates[i] == Some(r) && AbsentBefore(candidates, i))
            || (AbsentBefore(candidates, |candidates|) && r == last)
  {
    var r := FirstPresent(candidates, last);
    if |candidates| == 0 {
    } else if candidates[0].Some? {
      assert AbsentBefore(candidates, 0);
    } else {
      var rest := candidates[1..];
      FirstPresentIsFirst(rest, last);
      assert r == FirstPresent(rest, last);
      if AbsentBefore(rest, |rest|) && r == last {
        assert AbsentBefore(candidates, |candidates|);
      } else {
        var i :| 0 <= i < |rest| && rest[i] == Some(r) && AbsentBefore(rest, i);
        assert candidates[i + 1] == Some(r) && AbsentBefore(candidates, i + 1);
      }
    }
  }

  /** `a ?? b` on locales. */
  function OrElse(a: Option<Locale>, b: Locale): Locale
  {
    if a.Some? then a.value else b
  }

  /** Short `??` chains unfold to nested `OrElse`. */
  lemma FirstPresentUnfold(a: Option<Locale>, b: Option<Locale>, c: Option<Locale>, last: Locale)
    ensures FirstPresent([c], last) == OrElse(c, last)
    ensures FirstPresent([b, c], last) == OrElse(b, OrElse(c, last))
    ensures FirstPresent([a, b, c], last) == OrElse(a, OrElse(b, OrElse(c, last)))
  {
    assert [a, b, c][1..] == [b, c];
    assert [b, c][1..] == [c];
    assert [c][1..] == [];
  }

  /** The update both modes persist: `{ locale: effective }`. */
  function LocaleUpdate(l: Locale): (u: Document)
    ensures ValidDocument(u) && LocaleField(u) == Some(Str(l))
    ensures u.Keys == {LocaleKey}
  {
    map[LocaleKey := Str(l)]
  }

  /** `resolveLocale(input, options)` (override mode). The result is the
      first of input, valid stored locale, fallback and default; it writes
      when nothing valid is stored or an input was given, and what it writes
      is what it returns, leaving every other stored key alone. */
  function ResolveLocale(f: FileState, input: Option<Locale>, options: LocaleConfig, ioOk: bool): (r: Resolution)
    ensures r.locale == FirstPresent([input, StoredLocale(ReadConfig(f)), options.fallback], DefaultLocale)
    ensures r.writeAttempted <==> StoredLocale(ReadConfig(f)).None? || input.Some?
    ensures r.writeAttempted && ioOk ==> ReadConfig(r.file) == ReadConfig(f)[LocaleKey := Str(r.locale)]
    ensures !(r.writeAttempted && ioOk) ==> r.file == f
  {
    var stored := StoredLocale(ReadConfig(f));
    var effective := OrElse(input, OrElse(stored, OrElse(options.fallback, DefaultLocale)));
    FirstPresentUnfold(input, stored, options.fallback, DefaultLocale);
    if stored.None? || input.Some? then
      Resolution(effective, true, WriteConfig(f, LocaleUpdate(effective), ioOk).file)
    else
      Resolution(effective, false, f)
  }

  /** `resolveStoredLocale(options)` (stored mode). The result is the first of
      valid stored locale, fallback and default; it writes only when nothing
      valid is stored, so a stored locale is never overwritten. */
  function ResolveStoredLocale(f: FileState, options: LocaleConfig, ioOk: bool): (r: Resolution)
    ensures r.locale == FirstPresent([StoredLocale(ReadConfig(f)), options.fallback], DefaultLocale)
    ensures r.writeAttempted <==> StoredLocale(ReadConfig(f)).None?
    ensures r.writeAttempted && ioOk ==> ReadConfig(r.file) == ReadConfig(f)[LocaleKey := Str(r.locale)]
    ensures !(r.writeAttempted && ioOk) ==> r.file == f
  {
    var stored := StoredLocale(ReadConfig(f));
    var effective := OrElse(stored, OrElse(options.fallback, DefaultLocale));
    FirstPresentUnfold(None, stored, options.fallback, DefaultLocale);
    if stored.None? then
      Resolution(effective, true, WriteConfig(f, LocaleUpdate(effective), ioOk).file)
    else
      Resolution(effective, false, f)
  }

  /** After a successful write, either mode's stored locale is the returned
      one and every other key read before keeps its value. */
  lemma ResolversKeepOtherKeys(f: FileState, input: Option<Locale>, options: LocaleConfig, ioOk: bool)
    ensures var r := ResolveLocale(f, input, options, ioOk);
            r.writeAttempted && ioOk ==>
              && StoredLocale(ReadConfig(r.file)) == Some(r.locale)
              && forall k :: k in ReadConfig(f) && k != LocaleKey ==>
                   k in ReadConfig(r.file) && ReadConfig(r.file)[k] == ReadConfig(f)[k]
    ensures var r := ResolveStoredLocale(f, options, ioOk);
            r.writeAttempted && ioOk ==>
              && StoredLocale(ReadConfig(r.file)) == Some(r.locale)
              && forall k :: k in ReadConfig(f) && k != LocaleKey ==>
                   k in ReadConfig(r.file) && ReadConfig(r.file)[k] == ReadConfig(f)[k]
  {
  }

  /** Override mode with no input and a valid stored locale returns that
      locale and leaves the file untouched. */
  lemma ResolveLocaleIdempotent(f: FileState, options: LocaleConfig, ioOk: bool)
    requires StoredLocale(ReadConfig(f)).Some?
    ensures ResolveLocale(f, None, options, ioOk) == Resolution(StoredLocale(ReadConfig(f)).value, false, f)
  {
  }

  /** After an override-mode call whose write succeeded (or was not needed),
      a second call without input returns the same locale and does not write. */
  lemma ResolveLocaleThenRepeat(f: FileState, input: Option<Locale>, options: LocaleConfig, options': LocaleConfig, ioOk: bool, ioOk': bool)
    requires ResolveLocale(f, input, options, ioOk).writeAttempted ==> ioOk
    ensures var r := ResolveLocale(f, input, options, ioOk);
            var r' := ResolveLocale(r.file, None, options', ioOk');
            r'.locale == r.locale && !r'.writeAttempted && r'.file == r.file
  {
  }

  /** Stored mode never overrides a valid stored locale. */
  lemma ResolveStoredNeverOverrides(f: FileState, options: LocaleConfig, ioOk: bool)
    requires StoredLocale(ReadConfig(f)).Some?
    ensures ResolveStoredLocale(f, options, ioOk) == Resolution(StoredLocale(ReadConfig(f)).value, false, f)
  {
  }

  /** After a stored-mode call whose write succeeded (or was not needed), a
      second call returns the same locale, whatever its fallback, and does not
      write. */
  lemma ResolveStoredTwice(f: FileState, options: LocaleConfig, options': LocaleConfig, ioOk: bool, ioOk': bool)
    requires ResolveStoredLocale(f, options, ioOk).writeAttempted ==> ioOk
    ensures var r := ResolveStoredLocale(f, options, ioOk);
            var r' := ResolveStoredLocale(r.file, options', ioOk');
            r'.locale == r.locale && !r'.writeAttempted && r'.file == r.file
  {
  }

  /** Without an input the two modes coincide. */
  lemma ModesAgreeWithoutInput(f: FileState, options: LocaleConfig, ioOk: bool)
    ensures ResolveLocale(f, None, options, ioOk) == ResolveStoredLocale(f, options, ioOk)
  {
  }

  /** The returned locale does not depend on whether the write succeeded. */
  lemma LocaleIndependentOfIo(f: FileState, input: Option<Locale>, options: LocaleConfig)
    ensures ResolveLocale(f, input, options, true).locale == ResolveLocale(f, input, options, false).locale
    ensures ResolveStoredLocale(f, options, true).locale == ResolveStoredLocale(f, options, false).locale
  {
  }

  /** A stored-mode call as a handler makes it: its options and I/O outcome. */
  datatype StoredCall = StoredCall(options: LocaleConfig, ioOk: bool)

  /** The locales a sequence of stored-mode calls returns, and the file after
      them. */
  datatype Run = Run(locales: seq<Locale>, file: FileState)

  /** Runs stored-mode calls one after another over the same file. */
  function RunStored(f: FileState, calls: seq<StoredCall>): (run: Run)
    ensures |run.locales| == |calls|
    decreases |calls|
  {
    if |calls| == 0 then Run([], f)
    else
      var r := ResolveStoredLocale(f, calls[0].options, calls[0].ioOk);
      var rest := RunStored(r.file, calls[1..]);
      Run([r.locale] + rest.locales, rest.file)
  }

  /** Once a valid locale is stored, any number of stored-mode calls, with any
      fallbacks and any I/O outcomes, all return it and leave the file as is. */
  lemma {:induction false} RunStoredKeepsLocale(f: FileState, calls: seq<StoredCall>)
    requires StoredLocale(ReadConfig(f)).Some?
    ensures forall i :: 0 <= i < |calls| ==> RunStored(f, calls).locales[i] == StoredLocale(ReadConfig(f)).value
    ensures RunStored(f, calls).file == f
  {
    if |calls| > 0 {
      ResolveStoredNeverOverrides(f, calls[0].options, calls[0].ioOk);
      RunStoredKeepsLocale(f, calls[1..]);
    }
  }

  /** A workflow: an override-mode call with an explicit locale whose write
      succeeds, then any stored-mode calls. Every later call returns that
      locale, so the language cannot change mid-workflow. */
  lemma WorkflowKeepsExplicitLocale(f: FileState, l: Locale, options: LocaleConfig, calls: seq<StoredCall>)
    ensures var r := ResolveLocale(f, Some(l), options, true);
            r.locale == l &&
            forall i :: 0 <= i < |calls| ==> RunStored(r.file, calls).locales[i] == l
  {
    var r := ResolveLocale(f, Some(l), options, true);
    RunStoredKeepsLocale(r.file, calls);
  }
}
