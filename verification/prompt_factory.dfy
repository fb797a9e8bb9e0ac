/** The response builder every prompt handler ends with
    (src/shared/prompt-factory.ts). */
module PromptFactory {
  import opened Wrappers
  import opened Strings

  /** A message's content: a type tag and its text. */
  datatype Content = Content(kind: string, text: string)

  /** `PromptMessage`: a role tag and one content block. */
  datatype PromptMessage = PromptMessage(role: string, content: Content)

  /** `PromptResponse`: the ordered message blocks. */
  datatype PromptResponse = PromptResponse(messages: seq<PromptMessage>)

  /** The shape the source's types promise: at least one message, every
      message from the "user" role with "text" content. */
  predicate WellFormed(r: PromptResponse)
  {
    && |r.messages| >= 1
    && forall i :: 0 <= i < |r.messages| ==>
         r.messages[i].role == "user" && r.messages[i].content.kind == "text"
  }

  /** The text a single-message response carries, `None` for any other shape. */
  function ResponseText(r: PromptResponse): Option<string>
  {
    if |r.messages| == 1 && r.messages[0].content.kind == "text" then Some(r.messages[0].content.text)
    else None
  }

  /** `createPromptResponse(content)`: a well-formed response with exactly one
      message whose text is `content`, unaltered. */
  function CreatePromptResponse(content: string): (r: PromptResponse)
    ensures WellFormed(r)
    ensures |r.messages| == 1
    ensures ResponseText(r) == Some(content)
  {
    PromptResponse([PromptMessage("user", Content("text", content))])
  }

  /** Distinct texts give distinct responses. */
  lemma CreatePromptResponseInjective(a: string, b: string)
    requires CreatePromptResponse(a) == CreatePromptResponse(b)
    ensures a == b
  {
    assert ResponseText(CreatePromptResponse(a)) == Some(a);
  }

  /** One argument of `joinPromptSections`: a string or an array of strings. */
  datatype Section = Line(text: string) | Lines(lines: seq<string>)

  /** The lines a section stands for. */
  function SectionLines(s: Section): seq<string>
  {
    match s
    case Line(t) => [t]
    case Lines(ls) => ls
  }

  /** A section as one piece of text: an array joined by "\n", a string as is. */
  function SectionText(s: Section): (t: string)
    ensures t == Join(SectionLines(s), "\n")
  {
    match s
    case Line(t) => t
    case Lines(ls) => Join(ls, "\n")
  }

  /** The pieces of `sections`, in order. */
  function SectionTexts(sections: seq<Section>): (pieces: seq<string>)
    ensures |pieces| == |sections|
    ensures forall i :: 0 <= i < |sections| ==> pieces[i] == SectionText(sections[i])
  {
    if |sections| == 0 then [] else [SectionText(sections[0])] + SectionTexts(sections[1..])
  }

  /** The pieces of a concatenation are the concatenated pieces. */
  lemma {:induction false} SectionTextsAppend(a: seq<Section>, b: seq<Section>)
    ensures SectionTexts(a + b) == SectionTexts(a) + SectionTexts(b)
  {
    if |a| > 0 {
      assert (a + b)[1..] == a[1..] + b;
      SectionTextsAppend(a[1..], b);
    } else {
      assert a + b == b;
    }
  }

  /** All lines of `sections`, in order. */
  function Flatten(sections: seq<Section>): seq<string>
  {
    if |sections| == 0 then [] else SectionLines(sections[0]) + Flatten(sections[1..])
  }

  /** No array section is empty. */
  predicate NoEmptyArrays(sections: seq<Section>)
  {
    forall i :: 0 <= i < |sections| ==> |SectionLines(sections[i])| > 0
  }

  /** `joinPromptSections(...sections)`: each section becomes one piece and
      the pieces are joined by "\n". No sections give "", and one string
      section comes back unchanged. */
  function JoinPromptSections(sections: seq<Section>): (r: string)
    ensures |sections| == 0 ==> r == ""
    ensures |sections| == 1 && sections[0].Line? ==> r == sections[0].text
  {
    Join(SectionTexts(sections), "\n")
  }

  /** Without empty array sections the result is the join of all lines. */
  lemma {:induction false} JoinPromptSectionsFlattens(sections: seq<Section>)
    requires NoEmptyArrays(sections)
    ensures JoinPromptSections(sections) == Join(Flatten(sections), "\n")
  {
    if |sections| > 1 {
      var rest := sections[1..];
      assert NoEmptyArrays(rest) by {
        forall i | 0 <= i < |rest| ensures |SectionLines(rest[i])| > 0 {
          assert rest[i] == sections[i + 1];
        }
      }
      JoinPromptSectionsFlattens(rest);
      assert |SectionLines(sections[0])| > 0;
      assert SectionTexts(sections) == [SectionText(sections[0])] + SectionTexts(rest);
      JoinAppend([SectionText(sections[0])], SectionTexts(rest), "\n");
      assert |SectionLines(rest[0])| > 0;
      assert |Flatten(rest)| > 0;
      JoinAppend(SectionLines(sections[0]), Flatten(rest), "\n");
    } else if |sections| == 1 {
      assert Flatten(sections) == SectionLines(sections[0]) + [];
      assert SectionLines(sections[0]) + [] == SectionLines(sections[0]);
    }
  }

  /** Line order and separators are kept: when no line contains a newline and
      no array section is empty, splitting the result at "\n" gives back
      exactly the lines of all sections, in input order. */
  lemma JoinPromptSectionsLines(sections: seq<Section>)
    requires |sections| > 0
    requires NoEmptyArrays(sections)
    requires forall i :: 0 <= i < |Flatten(sections)| ==> '\n' !in Flatten(sections)[i]
    ensures Split(JoinPromptSections(sections), '\n') == Flatten(sections)
  {
    JoinPromptSectionsFlattens(sections);
    assert |SectionLines(sections[0])| > 0;
    assert |Flatten(sections)| > 0;
    SplitJoin(Flatten(sections), '\n');
  }

  /** An empty array section is not dropped: it contributes an empty piece,
      so `(["a"], [], ["b"])` gives "a\n\nb" rather than the "a\nb" of its
      lines. */
  lemma EmptyArraySectionAddsBlankLine()
    ensures JoinPromptSections([Lines(["a"]), Lines([]), Lines(["b"])]) == "a\n\nb"
    ensures Join(Flatten([Lines(["a"]), Lines([]), Lines(["b"])]), "\n") == "a\nb"
  {
    var ss := [Lines(["a"]), Lines([]), Lines(["b"])];
    assert SectionTexts(ss) == ["a", "", "b"];
    assert Flatten(ss) == ["a"] + ([] + (["b"] + []));
    assert Flatten(ss) == ["a", "b"];
  }

  /** Two adjacent non-empty sections give the same text as the one array
      section holding both their lines; in particular `a, b` equals `[a, b]`. */
  lemma MergeAdjacentSections(pre: seq<Section>, x: Section, y: Section, post: seq<Section>)
    requires |SectionLines(x)| > 0 && |SectionLines(y)| > 0
    ensures JoinPromptSections(pre + [x, y] + post)
         == JoinPromptSections(pre + [Lines(SectionLines(x) + SectionLines(y))] + post)
  {
    var merged := Lines(SectionLines(x) + SectionLines(y));
    JoinAppend(SectionLines(x), SectionLines(y), "\n");
    assert SectionText(merged) == SectionText(x) + "\n" + SectionText(y);
    SectionTextsAppend(pre + [x, y], post);
    SectionTextsAppend(pre, [x, y]);
    SectionTextsAppend(pre + [merged], post);
    SectionTextsAppend(pre, [merged]);
    assert SectionTexts([x, y]) == [SectionText(x), SectionText(y)];
    assert SectionTexts([merged]) == [SectionText(merged)];
    JoinFuse(SectionTexts(pre), SectionText(x), SectionText(y), SectionTexts(post), "\n");
  }
}
