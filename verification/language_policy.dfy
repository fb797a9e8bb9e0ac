/** The language-policy section both kinds of handler put in their prompt
    (src/shared/language-policy.ts). */
module LanguagePolicy {
  import opened Wrappers
  import opened Types
  import opened Strings

  const Heading: string := "## Language Policy"

  /** The second line is this prefix, the config-file path, this suffix. */
  const PathLinePrefix: string := "- Read locale from `"
  const PathLineSuffix: string := "` as JSON (key: \"locale\")."

  /** The supported codes as the third line lists them: `ja | en`. */
  function AllowedList(): (s: string)
    ensures s == "ja | en"
  {
    Join(SupportedLocales, " | ")
  }

  /** The path a policy's second line names, `None` for any other line. */
  function ConfigPathOf(line: string): Option<string>
  {
    if |line| >= |PathLinePrefix| + |PathLineSuffix|
       && line[..|PathLinePrefix|] == PathLinePrefix
       && line[|line| - |PathLineSuffix|..] == PathLineSuffix
    then Some(line[|PathLinePrefix|..|line| - |PathLineSuffix|])
    else None
  }

  /** The second line embeds the path verbatim: it can be read back. */
  lemma PathLineRoundTrip(configFile: string)
    ensures ConfigPathOf(PathLinePrefix + configFile + PathLineSuffix) == Some(configFile)
  {
    var line := PathLinePrefix + configFile + PathLineSuffix;
    assert line[..|PathLinePrefix|] == PathLinePrefix;
    assert line[|line| - |PathLineSuffix|..] == PathLineSuffix;
    assert line[|PathLinePrefix|..|line| - |PathLineSuffix|] == configFile;
  }

  /** The second line of both sections. */
  function PathLine(configFile: string): (line: string)
    ensures ConfigPathOf(line) == Some(configFile)
  {
    PathLineRoundTrip(configFile);
    PathLinePrefix + configFile + PathLineSuffix
  }

  /** The four fixed rule lines closing `createLanguagePolicySection`. */
  const PolicyRules: seq<string> := [
    "- If missing, invalid, or unreadable: fallback to en and state that fallback in the output.",
    "- Thinking rule: Always reason in English; generate only in the resolved output language.",
    "- Apply the policy to all natural-language text (headings, bullet labels, explanations).",
    "- Keep code, file paths, JSON keys, and CLI commands unchanged unless explicitly requested."
  ]

  /** The four fixed rule lines closing `createInitLanguagePolicySection`. */
  const InitPolicyRules: seq<string> := [
    "- If missing/invalid/unreadable: fallback to en and state the fallback in the output.",
    "- Thinking rule: Always think in English; generate only in the resolved output language.",
    "- Apply to ALL natural language text (headings, bullet labels, explanations).",
    "- Keep code, file paths, and JSON keys as-is unless explicitly asked to translate."
  ]

  /** `createLanguagePolicySection(configFile)`: seven lines, the heading
      first, then the line naming `configFile` verbatim inside backticks, then
      the supported codes joined by " | ". */
  function LanguagePolicySection(configFile: string): (r: seq<string>)
    ensures |r| == 7
    ensures r[0] == Heading
    ensures ConfigPathOf(r[1]) == Some(configFile)
    ensures r[2] == "- Allowed values: ja | en."
  {
    [Heading, PathLine(configFile), "- Allowed values: " + AllowedList() + "."] + PolicyRules
  }

  /** `createInitLanguagePolicySection(configFile)`: seven lines whose first
      two are those of `LanguagePolicySection(configFile)`, then the supported
      codes joined by " | " in the shorter wording. */
  function InitLanguagePolicySection(configFile: string): (r: seq<string>)
    ensures |r| == 7
    ensures r[..2] == LanguagePolicySection(configFile)[..2]
    ensures r[2] == "- Allowed: ja | en "
  {
    [Heading, PathLine(configFile), "- Allowed: " + AllowedList() + " "] + InitPolicyRules
  }

  /** Each section determines the path it was built from. */
  lemma PolicySectionsDeterminePath(f: string, g: string)
    requires LanguagePolicySection(f) == LanguagePolicySection(g) || InitLanguagePolicySection(f) == InitLanguagePolicySection(g)
    ensures f == g
  {
    if InitLanguagePolicySection(f) == InitLanguagePolicySection(g) {
      assert InitLanguagePolicySection(f)[1] == LanguagePolicySection(f)[1];
      assert InitLanguagePolicySection(g)[1] == LanguagePolicySection(g)[1];
    }
    assert Some(f) == ConfigPathOf(LanguagePolicySection(f)[1]);
  }
}
