/** The supported locales, the locale type, its runtime guard and the default
    (src/shared/types.ts). */
module Types {
  import opened Wrappers
  import opened Json

  /** The closed list of supported locale codes, in declaration order. */
  const SupportedLocales: seq<string> := ["ja", "en"]

  /** A locale is one of the supported codes. */
  type Locale = s: string | s in SupportedLocales witness "ja"

  const DefaultLocale: Locale := "ja"

  /** The type guard `isValidLocale`. Its argument is untyped in the source:
      here it is any JSON value, or `None` for `undefined`. */
  predicate IsValidLocale(v: Option<Value>)
    ensures IsValidLocale(v) <==> v == Some(Str("ja")) || v == Some(Str("en"))
  {
    match v
    case Some(Str(s)) => s in SupportedLocales
    case _ => false
  }

  /** The supported list has exactly two distinct codes, "ja" then "en", and
      the default is one of them. */
  lemma SupportedLocalesShape()
    ensures |SupportedLocales| == 2
    ensures SupportedLocales[0] == "ja" && SupportedLocales[1] == "en"
    ensures SupportedLocales[0] != SupportedLocales[1]
    ensures IsValidLocale(Some(Str(DefaultLocale)))
  {
  }

  /** `undefined`, the empty string and an unsupported code are rejected. */
  lemma UnsupportedLocalesInvalid()
    ensures !IsValidLocale(None)
    ensures !IsValidLocale(Some(Str("")))
    ensures !IsValidLocale(Some(Str("fr")))
  {
  }

  /** A value of any JSON type other than string is rejected. */
  lemma NonStringsInvalid(v: Value)
    requires !v.Str?
    ensures !IsValidLocale(Some(v))
  {
  }
}
