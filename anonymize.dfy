/** anonymize.py: scrub personal data from case notes in three passes (named
    entities, email addresses, phone numbers), line by line over a file.
    The named-entity recogniser is not modelled: its findings are an input. */
module Anonymize {
  import opened Chars
  import opened Substrings
  import opened Substitute

  /** A named entity the recogniser reported: its text and its label (`label_`). */
  datatype Entity = Entity(text: string, kind: string)

  /** `f"[{ent.label_}]"`. */
  function Tag(kind: string): string {
    "[" + kind + "]"
  }

  /** The text after the entity steps for `ents`, in order, each step
      `text.replace(ent.text, tag)` applied to the previous result. */
  function ApplyEntities(text: string, ents: seq<Entity>): string
    decreases |ents|
  {
    if |ents| == 0 then text
    else
      var e := ents[|ents| - 1];
      Replace(ApplyEntities(text, ents[..|ents| - 1]), e.text, Tag(e.kind))
  }

  /** `anonymize_text(text)` given the entities the recogniser found in
      `text`, as a specification. */
  function Anonymized(text: string, ents: seq<Entity>): string {
    Sub(Phone, Sub(Email, ApplyEntities(text, ents)))
  }

  /** `anonymize_text`: the entity loop, then the email pass, then the phone
      pass, each on the previous result. */
  method AnonymizeText(text: string, ents: seq<Entity>) returns (r: string)
    ensures r == Anonymized(text, ents)
  {
    r := text;
    for i := 0 to |ents|
      invariant r == ApplyEntities(text, ents[..i])
    {
      assert ents[..i + 1][..i] == ents[..i];
      r := Replace(r, ents[i].text, Tag(ents[i].kind));
    }
    assert ents[..|ents|] == ents;
    r := Sub(Email, r);
    r := Sub(Phone, r);
  }

  /** Running the entity steps of `a` and then those of `b` is running the
      steps of `a + b`: each step works on what the steps before it left. */
  lemma {:induction false} ApplyEntitiesAppend(text: string, a: seq<Entity>, b: seq<Entity>)
    ensures ApplyEntities(text, a + b) == ApplyEntities(ApplyEntities(text, a), b)
    decreases |b|
  {
    if |b| == 0 {
      assert a + b == a;
    } else {
      assert (a + b)[..|a + b| - 1] == a + b[..|b| - 1];
      assert (a + b)[|a + b| - 1] == b[|b| - 1];
      ApplyEntitiesAppend(text, a, b[..|b| - 1]);
    }
  }

  /** One entity step replaces every non-overlapping occurrence of the
      entity's text, left to right, by its tag, not only the span the
      recogniser found; the text grows or shrinks accordingly. */
  lemma EntityStep(text: string, e: Entity)
    requires |e.text| > 0
    ensures ApplyEntities(text, [e]) == Join(Split(text, e.text), Tag(e.kind))
    ensures |ApplyEntities(text, [e])| == |text| + Count(text, e.text) * (|Tag(e.kind)| - |e.text|)
  {
    assert [e][..0] == [];
    ReplaceIsJoinSplit(text, e.text, Tag(e.kind));
    ReplaceLength(text, e.text, Tag(e.kind));
  }

  /** An entity whose text no longer occurs leaves the text unchanged. */
  lemma AbsentEntity(text: string, ents: seq<Entity>, e: Entity)
    requires |e.text| > 0 && !Contains(ApplyEntities(text, ents), e.text)
    ensures ApplyEntities(text, ents + [e]) == ApplyEntities(text, ents)
  {
    assert (ents + [e])[..|ents|] == ents;
    ReplaceAbsent(ApplyEntities(text, ents), e.text, Tag(e.kind));
  }

  /** The email pass sees what the entity steps left and the phone pass sees
      what the email pass left: neither adds a digit or an `@`. */
  lemma AnonymizedCounts(text: string, ents: seq<Entity>)
    ensures CountIf(Anonymized(text, ents), IsDigit) <= CountIf(ApplyEntities(text, ents), IsDigit)
    ensures CountIf(Anonymized(text, ents), IsAt) <= CountIf(ApplyEntities(text, ents), IsAt)
  {
    var t := ApplyEntities(text, ents);
    SubCounts(Email, t);
    SubCounts(Phone, Sub(Email, t));
  }

  /** A text that after the entity steps holds no `@` and fewer than ten
      digits comes out of both regex passes as it went in. */
  lemma AnonymizedRegexPassesIdle(text: string, ents: seq<Entity>)
    requires '@' !in ApplyEntities(text, ents)
    requires CountIf(ApplyEntities(text, ents), IsDigit) < 10
    ensures Anonymized(text, ents) == ApplyEntities(text, ents)
  {
    var t := ApplyEntities(text, ents);
    EmailPassWithoutAt(t);
    PhonePassFewDigits(t);
  }

  /** Wherever the email pass left `[EMAIL]`, the final text has it too,
      with the phone pass applied to each side on its own. */
  lemma AnonymizedKeepsEmailPlaceholder(text: string, ents: seq<Entity>, x: string, y: string)
    requires Sub(Email, ApplyEntities(text, ents)) == x + Placeholder(Email) + y
    ensures Anonymized(text, ents) == Sub(Phone, x) + Placeholder(Email) + Sub(Phone, y)
  {
    PhonePassKeepsEmailPlaceholder(x, y);
  }

  /** Neither an address nor a phone number is left in the result: the email
      pass leaves no address, and the phone pass neither leaves a phone
      number nor makes an address out of what it copies. */
  lemma AnonymizedLeavesNoMatch(text: string, ents: seq<Entity>)
    ensures forall pat, k, j :: !IsMatchAt(pat, Anonymized(text, ents), k, j)
  {
    var t := Sub(Email, ApplyEntities(text, ents));
    SubLeavesNoMatch(Email, ApplyEntities(text, ents));
    SubKeepsNoMatch(Phone, Email, t);
    SubLeavesNoMatch(Phone, t);
    forall pat: Pattern, k, j ensures !IsMatchAt(pat, Anonymized(text, ents), k, j) {
    }
  }

  /** Running the two regex passes again on the result changes nothing. */
  lemma AnonymizedRegexPassesDone(text: string, ents: seq<Entity>)
    ensures Sub(Phone, Sub(Email, Anonymized(text, ents))) == Anonymized(text, ents)
  {
    var r := Anonymized(text, ents);
    AnonymizedLeavesNoMatch(text, ents);
    SubUnchanged(Email, r);
    SubUnchanged(Phone, r);
  }

  /** The entity steps do not promise that an entity's text is gone: an
      entity whose text occurs in its own tag, such as `Entity("ORG", "ORG")`,
      turns its text into the tag and so leaves that text behind. */
  lemma EntityTextInsideTag(e: Entity)
    requires |e.text| > 0 && Contains(Tag(e.kind), e.text)
    ensures ApplyEntities(e.text, [e]) == Tag(e.kind)
    ensures Contains(ApplyEntities(e.text, [e]), e.text)
  {
    var s, tag := e.text, Tag(e.kind);
    assert [e][..0] == [];
    assert s[0..|s|] == s;
    assert FindFrom(s, s, 0) == Some(0);
    ReplaceFromFound(s, s, tag, 0, 0);
    ReplaceFromLast(s, s, tag, |s|);
  }

  // ---------------------------------------------------------------------
  // anonymize_file

  /** `[anonymize_text(note) for note in case_notes]` where `case_notes` is
      `readlines()` of the input and `ner` stands for the recogniser. */
  function AnonymizedNotes(content: string, ner: string -> seq<Entity>): (out: seq<string>)
    ensures |out| == |Lines(content)|
  {
    var lines := Lines(content);
    seq(|lines|, i requires 0 <= i < |lines| => Anonymized(lines[i], ner(lines[i])))
  }

  /** What `writelines` puts in the output file. */
  function AnonymizedFile(content: string, ner: string -> seq<Entity>): string {
    Concat(AnonymizedNotes(content, ner))
  }

  /** One output element per input line, in order, element `i` being the
      anonymized line `i`. */
  lemma AnonymizedNotesSpec(content: string, ner: string -> seq<Entity>, i: nat)
    requires i < |Lines(content)|
    ensures AnonymizedNotes(content, ner)[i] == Anonymized(Lines(content)[i], ner(Lines(content)[i]))
  {
  }

  /** When no line changes, the output file is the input file. */
  lemma AnonymizedFileIdentity(content: string, ner: string -> seq<Entity>)
    requires forall i :: 0 <= i < |Lines(content)| ==>
               Anonymized(Lines(content)[i], ner(Lines(content)[i])) == Lines(content)[i]
    ensures AnonymizedFile(content, ner) == content
  {
    assert AnonymizedNotes(content, ner) == Lines(content);
    ConcatLines(content);
  }

  /** Entities the line-by-line rewrite can take without merging or
      splitting lines: non-empty texts, and no "\n" in a text or a label. */
  predicate LineSafe(ents: seq<Entity>) {
    forall i :: 0 <= i < |ents| ==> |ents[i].text| > 0 && '\n' !in ents[i].text && '\n' !in ents[i].kind
  }

  /** The entity steps keep a well-formed line well-formed, ending in "\n"
      exactly when it did. */
  lemma {:induction false} ApplyEntitiesKeepsLine(x: string, ents: seq<Entity>)
    requires IsLine(x) && LineSafe(ents)
    ensures IsLine(ApplyEntities(x, ents))
    ensures EndsWithNewline(ApplyEntities(x, ents)) == EndsWithNewline(x)
    decreases |ents|
  {
    if |ents| > 0 {
      var init, e := ents[..|ents| - 1], ents[|ents| - 1];
      assert LineSafe(init);
      ApplyEntitiesKeepsLine(x, init);
      assert '\n' !in Tag(e.kind);
      ReplaceKeepsLine(ApplyEntities(x, init), e.text, Tag(e.kind));
    }
  }

  /** Anonymizing a line with line-safe entities gives one well-formed line,
      ending in "\n" exactly when the input line did. */
  lemma AnonymizedKeepsLine(x: string, ents: seq<Entity>)
    requires IsLine(x) && LineSafe(ents)
    ensures IsLine(Anonymized(x, ents)) && EndsWithNewline(Anonymized(x, ents)) == EndsWithNewline(x)
  {
    ApplyEntitiesKeepsLine(x, ents);
    SubKeepsLine(Email, ApplyEntities(x, ents));
    SubKeepsLine(Phone, Sub(Email, ApplyEntities(x, ents)));
  }

  /** Reading the output file back line by line gives the anonymized notes,
      one per input line, when the recogniser's entities for every line are
      line-safe. */
  lemma AnonymizedFileLines(content: string, ner: string -> seq<Entity>)
    requires forall i :: 0 <= i < |Lines(content)| ==> LineSafe(ner(Lines(content)[i]))
    ensures Lines(AnonymizedFile(content, ner)) == AnonymizedNotes(content, ner)
    ensures |Lines(AnonymizedFile(content, ner))| == |Lines(content)|
  {
    var lines, out := Lines(content), AnonymizedNotes(content, ner);
    LinesShape(content);
    forall j | 0 <= j < |out| ensures IsLine(out[j]) && EndsWithNewline(out[j]) == EndsWithNewline(lines[j]) {
      AnonymizedKeepsLine(lines[j], ner(lines[j]));
    }
    LinesOfConcat(out);
  }
}
