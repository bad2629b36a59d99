/** write.py: answer a support question from the command line. Retrieve the
    most similar past notes, show them, build a prompt around them, have a
    language model draft a reply and sign it. The retriever and the language
    model are not modelled: they are function parameters. */
module Write {
  import opened Chars
  import opened Substrings
  import opened Whitespace
  import opened Decimal
  import opened IndexNotes

  // ---------------------------------------------------------------------
  // The query

  /** The query `" ".join(sys.argv[1:])`, or None when there are fewer than
      two argv entries (the usage error). An empty argument is accepted. */
  function Query(argv: seq<string>): (q: Option<string>)
    ensures q.None? <==> |argv| < 2
  {
    if |argv| < 2 then None else Some(Join(argv[1..], " "))
  }

  /** The query splits back into the arguments when none of them holds a
      space. */
  lemma QueryRoundTrip(argv: seq<string>)
    requires |argv| >= 2
    requires forall j :: 1 <= j < |argv| ==> !Contains(argv[j], " ")
    ensures Split(Query(argv).value, " ") == argv[1..]
  {
    var args := argv[1..];
    forall j | 0 <= j < |args| ensures !Contains(args[j], " ") {
      assert args[j] == argv[j + 1];
    }
    SplitJoin(args, " ");
  }

  // ---------------------------------------------------------------------
  // The retrieved notes

  /** What one retrieved note adds to `retrieved_text`. */
  function Piece(page: string): string {
    page + "\n\n"
  }

  /** `retrieved_text` after the loop has seen `pages`, in retrieval order. */
  function Context(pages: seq<string>): string
    decreases |pages|
  {
    if |pages| == 0 then "" else Context(pages[..|pages| - 1]) + Piece(pages[|pages| - 1])
  }

  /** `c * n`: the character `c` repeated `n` times. */
  function Repeat(c: char, n: nat): (r: string)
    ensures |r| == n && forall k :: 0 <= k < n ==> r[k] == c
  {
    if n == 0 then "" else Repeat(c, n - 1) + [c]
  }

  /** `"-" * 80`, the line printed after each note. */
  const Rule: string := Repeat('-', 80)

  /** The first line printed for the note at 0-based position `i`. */
  function Heading(i: nat, page: string): string {
    "[" + Render(i + 1) + "] " + page
  }

  /** The lines printed by the loop over `pages`. */
  function Display(pages: seq<string>): seq<string>
    decreases |pages|
  {
    if |pages| == 0 then []
    else Display(pages[..|pages| - 1]) + [Heading(|pages| - 1, pages[|pages| - 1]), Rule]
  }

  /** The retrieval loop: print each note with its 1-based position and a
      rule, and append the note and a blank line to `retrieved_text`. */
  method CollectContext(pages: seq<string>) returns (text: string, shown: seq<string>)
    ensures text == Context(pages) && shown == Display(pages)
  {
    text := "";
    shown := [];
    for i := 0 to |pages|
      invariant text == Context(pages[..i])
      invariant shown == Display(pages[..i])
    {
      assert pages[..i + 1][..i] == pages[..i];
      shown := shown + [Heading(i, pages[i]), Rule];
      text := text + Piece(pages[i]);
    }
    assert pages[..|pages|] == pages;
  }

  /** `retrieved_text` is the pieces of the notes concatenated in retrieval
      order. */
  lemma {:induction false} ContextIsConcat(pages: seq<string>)
    ensures Context(pages) == Concat(seq(|pages|, i requires 0 <= i < |pages| => Piece(pages[i])))
    decreases |pages|
  {
    if |pages| > 0 {
      var init := pages[..|pages| - 1];
      ContextIsConcat(init);
      var all := seq(|pages|, i requires 0 <= i < |pages| => Piece(pages[i]));
      var front := seq(|init|, i requires 0 <= i < |init| => Piece(init[i]));
      assert all == front + [Piece(pages[|pages| - 1])];
      ConcatAppend(front, [Piece(pages[|pages| - 1])]);
    }
  }

  lemma {:induction false} ConcatAppend(a: seq<string>, b: seq<string>)
    ensures Concat(a + b) == Concat(a) + Concat(b)
    decreases |a|
  {
    if |a| == 0 {
      assert a + b == b;
    } else {
      assert (a + b)[1..] == a[1..] + b;
      ConcatAppend(a[1..], b);
    }
  }

  /** Two lines are printed per note; note `i` is shown under the number
      `i + 1`, followed by the rule. */
  lemma {:induction false} DisplaySpec(pages: seq<string>)
    ensures |Display(pages)| == 2 * |pages|
    ensures forall i :: 0 <= i < |pages| ==>
              Display(pages)[2 * i] == "[" + Render(i + 1) + "] " + pages[i] && Display(pages)[2 * i + 1] == Rule
    decreases |pages|
  {
    if |pages| > 0 {
      var init := pages[..|pages| - 1];
      DisplaySpec(init);
      forall i | 0 <= i < |pages| - 1 ensures init[i] == pages[i] {
      }
    }
  }

  /** Whitespace on both sides of a concatenation. */
  lemma AllSpaceAppend(a: string, b: string)
    ensures AllSpace(a + b) <==> AllSpace(a) && AllSpace(b)
  {
    if AllSpace(a + b) {
      forall k | 0 <= k < |a| ensures IsSpace(a[k]) {
        assert a[k] == (a + b)[k];
      }
      forall k | 0 <= k < |b| ensures IsSpace(b[k]) {
        assert b[k] == (a + b)[|a| + k];
      }
    }
  }

  /** `retrieved_text` is whitespace only exactly when every retrieved note
      is, in particular when nothing was retrieved. */
  lemma {:induction false} ContextBlank(pages: seq<string>)
    ensures AllSpace(Context(pages)) <==> forall i :: 0 <= i < |pages| ==> AllSpace(pages[i])
    decreases |pages|
  {
    if |pages| > 0 {
      var init := pages[..|pages| - 1];
      var last := pages[|pages| - 1];
      ContextBlank(init);
      AllSpaceAppend(Context(init), Piece(last));
      AllSpaceAppend(last, "\n\n");
      assert forall i :: 0 <= i < |init| ==> init[i] == pages[i];
    }
  }

  // ---------------------------------------------------------------------
  // The run

  /** How a run ends: the usage error, the early exit when nothing relevant
      was retrieved, or a drafted note. `shown` holds the lines printed for
      the retrieved notes. */
  datatype Outcome =
    | Usage
    | NoRelevantNotes(shown: seq<string>)
    | Drafted(shown: seq<string>, prompt: string, note: string)

  /** The process exit status: 1 for both early exits, 0 after a draft. */
  function ExitStatus(o: Outcome): (status: int)
    ensures status == 0 <==> o.Drafted?
    ensures status == 1 <==> !o.Drafted?
  {
    if o.Drafted? then 0 else 1
  }

  /** The whole script, with the retriever and the language model as
      parameters. It stops with the usage error when the query is missing,
      stops without asking the model exactly when every retrieved note is
      whitespace only (nothing retrieved included), and otherwise prompts the
      model with the notes and the query and signs its stripped reply. */
  method Ask(argv: seq<string>, retrieve: string -> seq<string>, generate: string -> string)
    returns (r: Outcome)
    ensures |argv| < 2 <==> r == Usage
    ensures |argv| >= 2 ==>
              var q := Join(argv[1..], " ");
              var pages := retrieve(q);
              r.shown == Display(pages) &&
              (r.NoRelevantNotes? <==> forall i :: 0 <= i < |pages| ==> AllSpace(pages[i])) &&
              (r.Drafted? ==> r.prompt == Prompt(Context(pages), q) &&
                              r.note == SignedNote(generate(r.prompt)))
  {
    var query := Query(argv);
    if query.None? {
      return Usage;
    }
    var q := query.value;
    var pages := retrieve(q);
    var retrievedText, shown := CollectContext(pages);
    ContextBlank(pages);
    StripEmpty(retrievedText);
    if Strip(retrievedText) == [] {
      return NoRelevantNotes(shown);
    }
    var prompt := Prompt(retrievedText, q);
    var aiResponse := Strip(generate(prompt));
    r := Drafted(shown, prompt, aiResponse + "\n" + Signature);
  }

  // ---------------------------------------------------------------------
  // The prompt

  /** The instruction the prompt gives against a sign-off. */
  const NoSignOff: string := "\U{26A0}\U{FE0F} NOTE: DO NOT include a sign-off or signature such as \"Best regards\"."

  const PromptIntro: string :=
    "\nYou are a technical support engineer at SugarCRM.\n"
    + "Based on the following past case notes, generate a support response in the same style. \n\n\n"

  const PromptHead: string := PromptIntro + NoSignOff + "\n\n\nRelevant past notes:\n"

  const PromptMiddle: string := "\n\nNew Issue:\n"

  const PromptTail: string := "\n\n\nGenerate a detailed response in the same style as the past notes.\n"

  /** The prompt f-string around `retrieved_text` and the query. */
  function Prompt(context: string, query: string): string {
    PromptHead + context + PromptMiddle + query + PromptTail
  }

  /** The prompt holds the no-sign-off instruction, then the retrieved text
      verbatim, then the query verbatim, in that order. */
  lemma PromptOrder(context: string, query: string)
    ensures var p := Prompt(context, query);
      var c := |PromptHead|;
      var q := c + |context| + |PromptMiddle|;
      var a := |PromptIntro|;
      OccursAt(p, NoSignOff, a) && a + |NoSignOff| <= c &&
      OccursAt(p, context, c) && c + |context| <= q && OccursAt(p, query, q)
  {
    var p := Prompt(context, query);
    var c := |PromptHead|;
    var q := c + |context| + |PromptMiddle|;
    var a := |PromptIntro|;
    assert p[a..a + |NoSignOff|] == NoSignOff;
    assert p[c..c + |context|] == context;
    assert p[q..q + |query|] == query;
  }

  // ---------------------------------------------------------------------
  // The signed note

  /** The signature appended to every drafted reply: a blank line, then the
      sign-off, the name, the title and the community link. */
  const SignOff: string := "Best Regards,"

  const Signature: string :=
    "\n" + SignOff + "\n\nDustin Coker\nTechnical Support Engineer\nEngage, Learn, Explore: https://sugarclub.sugarcrm.com\n"

  /** `ai_response + "\n" + signature`, with `ai_response` already stripped. */
  function SignedNote(response: string): string {
    Strip(response) + "\n" + Signature
  }

  /** The printed note ends with the signature, a blank line separates the
      body from `Best Regards,`, and the body is the stripped reply, without
      whitespace at either end. */
  lemma SignedNoteShape(response: string)
    ensures var n := SignedNote(response);
      var b := |Strip(response)|;
      |n| == b + 1 + |Signature| &&
      n[..b] == Strip(response) && IsTrimmed(n[..b]) &&
      n[b..b + 2] == "\n\n" && n[b + 2..b + 2 + |SignOff|] == SignOff &&
      n[b + 1..] == Signature
  {
    var n := SignedNote(response);
    var b := |Strip(response)|;
    assert n[..b] == Strip(response);
    assert n[b + 1..] == Signature;
    assert n[b..b + 2] == "\n" + Signature[..1];
    assert Signature[1..1 + |SignOff|] == SignOff;
    assert n[b + 2..b + 2 + |SignOff|] == Signature[1..1 + |SignOff|];
  }

  /** Re-indexing a drafted note removes exactly the appended signature:
      `clean_note` of the printed note is `clean_note` of the reply alone. */
  lemma SignedNoteCleaned(response: string)
    ensures Cleaned(SignedNote(response)) == Cleaned(Strip(response))
  {
    var w := "\n\n";
    var t := Signature[1..];
    assert SignedNote(response) == Strip(response) + w + t;
    SignatureOpens();
    StripCutAllOpening(Strip(response), w, t, SignaturePhrases);
  }

  /** The signature is a line break followed by the first signature phrase,
      and no phrase holds a line break. */
  lemma SignatureOpens()
    ensures OccursAt(Signature[1..], SignaturePhrases[0], 0)
    ensures forall i, m :: 0 <= i < |SignaturePhrases| && 0 <= m < 2 ==> "\n\n"[m] !in SignaturePhrases[i]
  {
    assert Signature[1..][..|SignOff|] == SignOff;
  }
}
