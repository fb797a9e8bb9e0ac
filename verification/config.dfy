/** The persisted config store (src/utils/config.ts): one JSON document at a
    fixed path, read tolerantly and rewritten as a shallow merge. */
module Config {
  import opened Wrappers
  import opened Json
  import opened Types

  /** The config document: a JSON object seen as a map from key to value. */
  type Document = map<string, Value>

  /** The only key the schema knows. */
  const LocaleKey: string := "locale"

  /** The file at the config path, classified the way `readConfig` sees it.
      JSON text is not modelled: `Blank` stands for content that trims to the
      empty string and `Malformed` for content `JSON.parse` rejects. */
  datatype FileState =
    | Missing
    | Unreadable
    | Blank
    | Malformed
    | Parsed(value: Value)

  /** `doc.locale`: the value stored under "locale", `None` when absent. */
  function LocaleField(d: Document): Option<Value>
  {
    if LocaleKey in d then Some(d[LocaleKey]) else None
  }

  /** A document the schema accepts: "locale" is absent or a supported code;
      every other key passes through whatever its value. */
  predicate ValidDocument(d: Document)
    ensures ValidDocument(d) <==> LocaleKey in d ==> d[LocaleKey] == Str("ja") || d[LocaleKey] == Str("en")
  {
    LocaleKey !in d || IsValidLocale(LocaleField(d))
  }

  /** `ConfigSchema.safeParse` succeeds: an object (not an array, not null)
      whose fields form a valid document. */
  predicate SchemaAccepts(v: Value)
    ensures SchemaAccepts(v) <==>
              v.Obj? && (LocaleKey in v.fields ==> v.fields[LocaleKey] == Str("ja") || v.fields[LocaleKey] == Str("en"))
  {
    v.Obj? && ValidDocument(v.fields)
  }

  /** `readConfig()`: never fails. It yields the stored document exactly when
      the file parses to a schema-valid object, and `{}` otherwise. */
  function ReadConfig(f: FileState): (d: Document)
    ensures ValidDocument(d)
    ensures d == map[] || f == Parsed(Obj(d))
    ensures f.Parsed? && SchemaAccepts(f.value) ==> d == f.value.fields
  {
    match f
    case Parsed(v) => if SchemaAccepts(v) then v.fields else map[]
    case _ => map[]
  }

  /** Every file that is absent, unreadable, blank, not JSON, not an object,
      or whose locale is unsupported reads as the empty document, whatever its
      other fields. */
  lemma ReadConfigEmptyCases(f: FileState)
    requires || f.Missing? || f.Unreadable? || f.Blank? || f.Malformed?
             || (f.Parsed? && !f.value.Obj?)
             || (f.Parsed? && f.value.Obj? && LocaleKey in f.value.fields
                 && !IsValidLocale(Some(f.value.fields[LocaleKey])))
    ensures ReadConfig(f) == map[]
  {
  }

  /** `{ ...current, ...updates }`: keys of `updates` win, every other key of
      `current` keeps its value, and nothing else appears. */
  function Merge(current: Document, updates: Document): (m: Document)
    ensures m.Keys == current.Keys + updates.Keys
    ensures forall k :: k in updates ==> m[k] == updates[k]
    ensures forall k :: k in current && k !in updates ==> m[k] == current[k]
    ensures ValidDocument(current) && ValidDocument(updates) ==> ValidDocument(m)
  {
    current + updates
  }

  /** The result of `writeConfig`: the merged document or `None` (`undefined`)
      on an I/O error, and the file afterwards. */
  datatype WriteOutcome = WriteOutcome(result: Option<Document>, file: FileState)

  /** `writeConfig(updates)`. The outcome of the directory creation and the
      file write is the oracle `ioOk`. On success the result is the merge of
      what `readConfig` saw with `updates`, and reading the file back yields
      that merge; on failure nothing is returned and the file is as before. */
  function WriteConfig(f: FileState, updates: Document, ioOk: bool): (w: WriteOutcome)
    requires ValidDocument(updates)
    ensures ioOk <==> w.result.Some?
    ensures ioOk ==> w.result.value.Keys == ReadConfig(f).Keys + updates.Keys
    ensures ioOk ==> forall k :: k in updates ==> w.result.value[k] == updates[k]
    ensures ioOk ==> forall k :: k in ReadConfig(f) && k !in updates ==> w.result.value[k] == ReadConfig(f)[k]
    ensures ioOk ==> ReadConfig(w.file) == w.result.value
    ensures !ioOk ==> w.file == f
  {
    if ioOk then
      var next := Merge(ReadConfig(f), updates);
      WriteOutcome(Some(next), Parsed(Obj(next)))
    else
      WriteOutcome(None, f)
  }

  /** A write over a file that reads as `{}` (missing, malformed, or with an
      unsupported locale) stores exactly `updates`: prior content is lost. */
  lemma WriteOverUnreadableDocument(f: FileState, updates: Document)
    requires ValidDocument(updates)
    requires ReadConfig(f) == map[]
    ensures WriteConfig(f, updates, true).result == Some(updates)
    ensures ReadConfig(WriteConfig(f, updates, true).file) == updates
  {
    assert map[] + updates == updates;
  }

  /** Writing a locale into a document holding an unrelated field keeps that
      field: `{title: "x"}` becomes `{title: "x", locale: "en"}`. */
  lemma WriteMergesExample()
    ensures WriteConfig(Parsed(Obj(map["title" := Str("x")])), map[LocaleKey := Str("en")], true).result
         == Some(map["title" := Str("x"), LocaleKey := Str("en")])
  {
    var current := map["title" := Str("x")];
    assert LocaleKey !in current;
    assert ReadConfig(Parsed(Obj(current))) == current;
    assert current + map[LocaleKey := Str("en")] == map["title" := Str("x"), LocaleKey := Str("en")];
  }
}
