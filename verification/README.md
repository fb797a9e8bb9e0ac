# spec-pilot: locale resolution, config store and response builder

This project is a Dafny model of the part of spec-pilot that has rules worth proving. spec-pilot is a prompt server for an agent protocol. The modelled part covers:

- the closed set of supported locales, the default locale and the runtime guard `isValidLocale` (`types.dfy`, module `Types`);
- the persisted config store, one JSON document at `.kiro/spec-pilot.json` (`config.dfy`, module `Config`). `readConfig` never fails and reads anything unusable as `{}`. `writeConfig` rewrites the file as a shallow merge of what it read with the updates;
- the locale resolver in its two modes (`locale.dfy`, module `LocaleResolver`). Override mode (`resolveLocale`) lets an explicit input win and persists it. Stored mode (`resolveStoredLocale`) never overwrites a stored locale. Both use one precedence chain: input, valid stored locale, caller fallback, default `"ja"`;
- `joinPromptSections` and `createPromptResponse`, which every handler uses to build its answer (`prompt_factory.dfy`, module `PromptFactory`). `Array.prototype.join` and a one-character `split` live in `strings.dfy` (module `Strings`);
- the two seven-line language-policy sections (`language_policy.dfy`, module `LanguagePolicy`).

Modelling choices:

- The config file is a value of `Config.FileState`: `Missing`, `Unreadable`, `Blank`, `Malformed`, or `Parsed(v)` with `v` a JSON value (`Json.Value`).
- A write is state-passing. It takes an `ioOk` oracle standing for the outcome of `mkdirSync` and `writeFileSync`. A successful write leaves the file as `Parsed(Obj(merged))`.
- `isValidLocale` takes an untyped argument. Here it takes an `Option<Json.Value>`, where `None` is `undefined`.
- The resolvers return a `Resolution`. It holds the locale, whether `writeConfig` was called, and the file afterwards.

The model follows the code, including these easily missed behaviours:

- Neither the explicit input of `resolveLocale` nor the `fallback` option of either mode is checked by `isValidLocale`. Both are typed `Locale` and used as is (src/shared/locale.ts:20, 41). The model gives both the type `Option<Locale>`.
- An empty array section is not dropped by `joinPromptSections`. It adds an empty piece, so there is one extra newline (`EmptyArraySectionAddsBlankLine`).
- At this revision the `spec.init` handler does not call `resolveLocale`. Only the stored mode has callers (src/prompts/spec-requirements.ts:25, src/prompts/spec-impl-tasks.ts:31).

Both policy sections tell the agent to "fallback to en" (src/shared/language-policy.ts:12, 27). The resolver's default is `"ja"` (src/shared/types.ts:24). The two only meet when the config file holds no valid locale. The model keeps both texts exactly as written.

## Model

| member | source | states |
|---|---|---|
| Types.IsValidLocale | src/shared/types.ts:17-19 | A value is a valid locale iff it is the string "ja" or the string "en"; undefined, null, numbers, objects and other strings are not |
| Types.SupportedLocalesShape | src/shared/types.ts:5-24 | The supported list is exactly "ja" then "en", two distinct codes, and the default locale is valid |
| Types.UnsupportedLocalesInvalid | src/shared/types.ts:17-19 | Undefined, the empty string and an unsupported code such as "fr" are all rejected |
| Types.NonStringsInvalid | src/shared/types.ts:17-19 | A value of any JSON type other than string (null, boolean, number, array, object) is rejected |
| Config.ValidDocument | src/utils/config.ts:10-14 | A document passes the schema iff its "locale" key is absent or holds the string "ja" or "en"; other keys may hold anything |
| Config.SchemaAccepts | src/utils/config.ts:10-14 | The schema accepts a parsed value iff it is a JSON object whose "locale" key is absent or holds the string "ja" or "en"; arrays, null, strings, numbers and booleans fail |
| Config.ReadConfig | src/utils/config.ts:20-44 | Reading never fails and always yields a schema-valid document; a non-empty result is exactly the object stored in the file, and a schema-valid stored object is returned whole, unknown fields included |
| Config.ReadConfigEmptyCases | src/utils/config.ts:20-44 | A missing, unreadable, blank, non-JSON or non-object file, or one whose locale is unsupported, reads as the empty document whatever its other fields |
| Config.Merge | src/utils/config.ts:49 | The merge has exactly the keys of both documents; keys of the update take its values and every other key keeps its current value; merging two schema-valid documents gives a schema-valid one |
| Config.WriteConfig | src/utils/config.ts:46-59 | A successful write returns the read document with the updates laid over it, and reading the file back yields exactly that result; an I/O failure returns undefined and leaves the file unchanged |
| Config.WriteOverUnreadableDocument | src/utils/config.ts:46-49 | When the current file reads as empty (malformed, or with an invalid locale), the written document is exactly the update: prior content is lost |
| Config.WriteMergesExample | src/utils/config.ts:48-49 | Writing locale "en" over a document holding only title "x" yields a document holding both |
| LocaleResolver.StoredLocale | src/shared/locale.ts:19 | The stored locale is present iff the document's locale field passes isValidLocale, and then it is that field's string |
| LocaleResolver.FirstPresentIsFirst | src/shared/locale.ts:20 | Meaning of a `??` chain: the result is the first present candidate with none present before it, or the final default when none is present |
| LocaleResolver.LocaleUpdate | src/shared/locale.ts:26 | The update `{ locale: effective }` has exactly one key, "locale", which holds the given locale, so it passes the schema |
| LocaleResolver.ResolveLocale | src/shared/locale.ts:17-30 | Returns input ?? valid stored ?? fallback ?? default; writes iff nothing valid is stored or an input was given; after a successful write the file reads as the previous document with exactly its locale set to the returned one, no key added or lost; otherwise the file is unchanged |
| LocaleResolver.ResolveStoredLocale | src/shared/locale.ts:38-49 | Returns valid stored ?? fallback ?? default; writes iff nothing valid is stored; after a successful write the file reads as the previous document with exactly its locale set to the returned one, no key added or lost; otherwise the file is unchanged |
| LocaleResolver.ResolversKeepOtherKeys | src/shared/locale.ts:17-49 | After a successful write in either mode, the stored locale reads back as the returned one and every other key read before keeps its value |
| LocaleResolver.ResolveLocaleIdempotent | src/shared/locale.ts:19-27 | With no input and a valid stored locale, override mode returns the stored locale, does not write, and leaves the file as it was |
| LocaleResolver.ResolveLocaleThenRepeat | src/shared/locale.ts:17-30 | After an override-mode call whose write succeeded or was not needed, a second call without input returns the same locale and does not write |
| LocaleResolver.ResolveStoredNeverOverrides | src/shared/locale.ts:40-46 | With a valid stored locale, stored mode returns it and never writes, whatever the fallback |
| LocaleResolver.ResolveStoredTwice | src/shared/locale.ts:38-49 | After a stored-mode call whose write succeeded or was not needed, a second call with any fallback returns the same locale and does not write |
| LocaleResolver.ModesAgreeWithoutInput | src/shared/locale.ts:17-49 | Without an explicit input the override and stored modes give the same locale, the same write decision and the same file |
| LocaleResolver.LocaleIndependentOfIo | src/shared/locale.ts:17-49 | In both modes the returned locale is the same whether or not the write succeeds |
| LocaleResolver.RunStoredKeepsLocale | src/shared/locale.ts:38-49 | Once a valid locale is stored, any sequence of stored-mode calls with any fallbacks and I/O outcomes returns it every time and leaves the file unchanged |
| LocaleResolver.WorkflowKeepsExplicitLocale | src/shared/locale.ts:17-49 | An override-mode call with an explicit locale whose write succeeds returns that locale, and every later stored-mode call returns it too |
| Strings.Join | src/shared/prompt-factory.ts:46-47 | Array join: no parts give "", one part is returned as is, and the length is the parts' total plus one separator between each two neighbours |
| Strings.SplitJoin | src/shared/prompt-factory.ts:46-47 | Splitting a newline join at newlines gives back the parts, when there is at least one part and none contains the separator |
| Strings.JoinSplit | src/shared/prompt-factory.ts:46-47 | Joining the pieces of a split with the separator gives back the original text |
| PromptFactory.CreatePromptResponse | src/shared/prompt-factory.ts:27-37 | The response is well formed (at least one message, every message from role "user" with content type "text"), has exactly one message, and that message's text is the input unaltered |
| PromptFactory.CreatePromptResponseInjective | src/shared/prompt-factory.ts:27-37 | Different texts give different responses: the text can be read back from the response |
| PromptFactory.SectionText | src/shared/prompt-factory.ts:46 | A section's piece is its lines joined by a newline: an array is joined, and a string is kept as it is |
| PromptFactory.SectionTexts | src/shared/prompt-factory.ts:45-46 | The mapped pieces are one per section, in input order, each the section's piece |
| PromptFactory.JoinPromptSections | src/shared/prompt-factory.ts:44-48 | Zero sections give the empty string and a single string section is returned unchanged |
| PromptFactory.JoinPromptSectionsFlattens | src/shared/prompt-factory.ts:44-48 | When no array section is empty, the result is all sections' lines in input order joined by single newlines |
| PromptFactory.JoinPromptSectionsLines | src/shared/prompt-factory.ts:44-48 | When no line contains a newline and no array section is empty, splitting the result at newlines gives back exactly the lines of all sections, in order |
| PromptFactory.EmptyArraySectionAddsBlankLine | src/shared/prompt-factory.ts:46-47 | An empty array section is not dropped: sections ["a"], [], ["b"] give "a\n\nb", not the "a\nb" of their lines |
| PromptFactory.MergeAdjacentSections | src/shared/prompt-factory.ts:44-48 | Two adjacent non-empty sections give the same text as one array section holding both their lines, so sections a, b equal the one section [a, b] |
| LanguagePolicy.AllowedList | src/shared/language-policy.ts:11 | The supported locales joined by " \| " read "ja \| en" |
| LanguagePolicy.PathLine | src/shared/language-policy.ts:10 | The path line embeds the config-file path verbatim inside backticks: the path can be read back from it |
| LanguagePolicy.LanguagePolicySection | src/shared/language-policy.ts:8-16 | Exactly seven lines: the "## Language Policy" heading, the line naming the config file verbatim, then the allowed codes "ja \| en" |
| LanguagePolicy.InitLanguagePolicySection | src/shared/language-policy.ts:23-31 | Exactly seven lines whose first two equal those of the regular section for the same path, then the allowed codes in the shorter wording |
| LanguagePolicy.PolicySectionsDeterminePath | src/shared/language-policy.ts:8-31 | Each section determines the config path it was built from: equal sections mean equal paths |

## Left out

- JSON text: `JSON.parse`, `JSON.stringify` with two-space indentation and the trailing newline are library calls. The file is classified abstractly: `Blank` is content that trims to nothing, and `Malformed` is content `JSON.parse` rejects. A written document is assumed to parse back to itself. That fails for number literals outside the double range: `1e400` parses as `Infinity`, which `JSON.stringify` writes back as `null`, so a pass-through field holding it reads back as `null` after any write, while the model keeps the literal. Number literals are also re-serialised in canonical form (`1.0` is written back as `1`), which the model does not reflect. Key order in the written text is not modelled, because documents are maps.
- JSON numbers are kept as their literal text. Floating-point values are never computed with.
- Config.WriteConfig: requires the updates to satisfy the schema, as the parameter type `Partial<SpecPilotConfig>` demands. An update with an explicit `locale: undefined` is not modelled.
- Config.WriteConfig: a failed write is assumed to leave the file as it was. A partial write by the file system is not modelled.
- The directory creation (`mkdirSync`), the existence check and the file read are I/O. They appear only through the `FileState` cases and the `ioOk` oracle.
- The absolute config path built from the working directory is not modelled. The policy sections take the path as a parameter.
- `console.warn` diagnostics are a side channel with no effect on results.
- Concurrent processes racing on the config file are out of scope. The model is a single sequential state.
- The open index signatures of `PromptMessage` and `PromptResponse` (extra unknown properties) are not modelled.
- The transport bootstrap, the handlers (greeting, spec.init, spec.create-requirements, spec.create-tasks, spec.impl-tasks), the resource loader, the launcher script and the constants file are not part of this model. They are template text, transport glue or file-system calls. The handlers' only link to the core is which resolver mode they call.
