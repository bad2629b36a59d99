/** index_notes.py: split the case-note corpus into notes, strip lingering
    signatures from each, and turn the cleaned notes into numbered documents
    for the vector store. */
module IndexNotes {
  import opened Chars
  import opened Substrings
  import opened Whitespace
  import opened Decimal

  /** The corpus separator, the text `\n---\n`: a `---` on the first or last
      line does not split, and of two adjacent `---` lines only the first does. */
  const Separator: string := "\n---\n"

  /** The literal phrases of the three signature patterns. Each pattern is
      the phrase followed by `.*` under DOTALL, and no phrase holds a regex
      metacharacter. */
  const SignaturePhrases: seq<string> := ["Best Regards,", "Dustin Coker", "Engage, Learn, Explore: "]

  predicate ContainsNoPhrase(s: string) {
    forall p :: p in SignaturePhrases ==> !Contains(s, p)
  }

  // ---------------------------------------------------------------------
  // Splitting the corpus

  /** `raw_notes.split("\n---\n")`. */
  function SplitNotes(raw: string): (notes: seq<string>)
    ensures |notes| >= 1
  {
    Split(raw, Separator)
  }

  /** Joining the notes with the separator gives back the corpus, and no
      note contains the separator. */
  lemma SplitNotesRoundTrip(raw: string)
    ensures Join(SplitNotes(raw), Separator) == raw
    ensures forall i :: 0 <= i < |SplitNotes(raw)| ==> !Contains(SplitNotes(raw)[i], Separator)
  {
    JoinSplit(raw, Separator);
    SplitPiecesFree(raw, Separator);
  }

  /** There is one note more than there are separators; a corpus without a
      separator, the empty one included, is a single note. */
  lemma SplitNotesCount(raw: string)
    ensures |SplitNotes(raw)| == Count(raw, Separator) + 1
    ensures !Contains(raw, Separator) ==> SplitNotes(raw) == [raw]
  {
    SplitCount(raw, Separator);
    if !Contains(raw, Separator) {
      SplitWithoutSeparator(raw, Separator);
    }
  }

  // ---------------------------------------------------------------------
  // Cleaning one note

  /** `re.sub(phrase + ".*", "", note, flags=re.DOTALL)`: the leftmost match
      starts at the first occurrence of the phrase and `.*` takes everything
      after it, so the note is cut there; without an occurrence it is kept. */
  function CutAt(note: string, phrase: string): (r: string)
    requires |phrase| > 0
    ensures |r| <= |note| && r == note[..|r|]
    ensures !Contains(r, phrase)
    ensures !Contains(note, phrase) ==> r == note
    ensures Contains(note, phrase) ==> OccursAt(note, phrase, |r|)
    ensures forall k :: 0 <= k < |r| ==> !OccursAt(note, phrase, k)
  {
    FindFromSpec(note, phrase, 0);
    match FindFrom(note, phrase, 0)
    case None =>
      assert !Contains(note, phrase);
      note
    case Some(k) =>
      SliceBeforeFirst(note, phrase, 0, k);
      note[..k]
  }

  /** The note after the patterns of `phrases` have run in order. */
  function CutAll(note: string, phrases: seq<string>): string
    requires forall i :: 0 <= i < |phrases| ==> |phrases[i]| > 0
    decreases |phrases|
  {
    if |phrases| == 0 then note
    else CutAt(CutAll(note, phrases[..|phrases| - 1]), phrases[|phrases| - 1])
  }

  /** Each pass keeps a prefix and removes its phrase; a prefix of a text
      without a phrase is still without it, so after all passes none of the
      phrases is left and a prefix of the note remains. */
  lemma {:induction false} CutAllSpec(note: string, phrases: seq<string>)
    requires forall i :: 0 <= i < |phrases| ==> |phrases[i]| > 0
    ensures var r := CutAll(note, phrases);
      |r| <= |note| && r == note[..|r|] && forall p :: p in phrases ==> !Contains(r, p)
    decreases |phrases|
  {
    if |phrases| > 0 {
      var init := phrases[..|phrases| - 1];
      var last := phrases[|phrases| - 1];
      CutAllSpec(note, init);
      var prev := CutAll(note, init);
      var r := CutAt(prev, last);
      forall p | p in phrases ensures !Contains(r, p) {
        if p != last {
          assert p in init;
          SliceAvoids(prev, p, 0, |r|);
          assert prev[0..|r|] == r;
        }
      }
    }
  }

  /** A note without any of the phrases comes through all passes unchanged. */
  lemma {:induction false} CutAllNoPhrase(note: string, phrases: seq<string>)
    requires forall i :: 0 <= i < |phrases| ==> |phrases[i]| > 0
    requires forall p :: p in phrases ==> !Contains(note, p)
    ensures CutAll(note, phrases) == note
    decreases |phrases|
  {
    if |phrases| > 0 {
      var init := phrases[..|phrases| - 1];
      assert forall p :: p in init ==> p in phrases;
      CutAllNoPhrase(note, init);
      assert phrases[|phrases| - 1] in phrases;
    }
  }

  /** Running the passes is running the first one, then the others. */
  lemma {:induction false} CutAllFront(note: string, phrases: seq<string>)
    requires |phrases| > 0 && forall i :: 0 <= i < |phrases| ==> |phrases[i]| > 0
    ensures CutAll(note, phrases) == CutAll(CutAt(note, phrases[0]), phrases[1..])
    decreases |phrases|
  {
    if |phrases| > 1 {
      var init := phrases[..|phrases| - 1];
      CutAllFront(note, init);
      assert init[1..] == phrases[1..][..|phrases[1..]| - 1];
    }
  }

  /** An occurrence that lies inside `x` is one in `x + y`, and back. */
  lemma OccursInPrefix(x: string, y: string, p: string, k: nat)
    requires k + |p| <= |x|
    ensures OccursAt(x + y, p, k) == OccursAt(x, p, k)
  {
    assert (x + y)[k..k + |p|] == x[k..k + |p|];
  }

  /** When `x` holds the phrase, text after `x` does not change the cut. */
  lemma CutAtPrefixHit(x: string, y: string, p: string)
    requires |p| > 0 && Contains(x, p)
    ensures CutAt(x + y, p) == CutAt(x, p)
  {
    FindFromSpec(x, p, 0);
    var k := FindFrom(x, p, 0).value;
    forall k' | 0 <= k' < k ensures !OccursAt(x + y, p, k') {
      OccursInPrefix(x, y, p, k');
    }
    OccursInPrefix(x, y, p, k);
    FindFirst(x + y, p, 0, k);
  }

  /** A phrase absent from `x` that has none of the characters of `w` cannot
      start anywhere in `x + w`, whatever follows. */
  lemma NoOccurrenceBefore(x: string, w: string, t: string, p: string)
    requires |p| > 0 && !Contains(x, p) && |w| > 0
    requires forall m :: 0 <= m < |w| ==> w[m] !in p
    ensures forall k :: 0 <= k < |x| + |w| ==> !OccursAt(x + w + t, p, k)
  {
    var s := x + w + t;
    forall k | 0 <= k < |x| + |w| ensures !OccursAt(s, p, k) {
      if k + |p| <= |x| {
        OccursInPrefix(x, w + t, p, k);
        assert x + (w + t) == s;
      } else if k + |p| <= |s| {
        var m := if k < |x| then |x| else k;
        assert |x| <= m < |x| + |w|;
        assert s[m] == w[m - |x|];
        assert s[k..k + |p|][m - k] == s[m];
        assert s[k..k + |p|][m - k] !in p;
      }
    }
  }

  /** When `t` opens with the phrase and `w` shares no character with it,
      the cut of `x + w + t` is the cut of `x + w`: either inside `x`, or
      right where `t` begins. */
  lemma CutBeforeOpening(x: string, w: string, t: string, p: string)
    requires |p| > 0 && |w| > 0 && OccursAt(t, p, 0)
    requires forall m :: 0 <= m < |w| ==> w[m] !in p
    ensures CutAt(x + w + t, p) == CutAt(x + w, p)
  {
    var s := x + w + t;
    if Contains(x, p) {
      CutAtPrefixHit(x, w + t, p);
      CutAtPrefixHit(x, w, p);
      assert x + (w + t) == s;
    } else {
      var n := |x| + |w|;
      NoOccurrenceBefore(x, w, t, p);
      assert s[n..n + |p|] == t[..|p|];
      FindFirst(s, p, 0, n);
      assert s[..n] == x + w;
      NoOccurrenceBefore(x, w, "", p);
      assert x + w + "" == x + w;
      assert !Contains(x + w, p);
    }
  }

  /** Appending characters no phrase contains either changes nothing (when
      some phrase was found in `x`) or is carried through untouched (when
      none was, and `x` itself comes through whole). */
  lemma {:induction false} CutAllTrailing(x: string, w: string, phrases: seq<string>)
    requires |w| > 0 && forall i :: 0 <= i < |phrases| ==> |phrases[i]| > 0
    requires forall i, m :: 0 <= i < |phrases| && 0 <= m < |w| ==> w[m] !in phrases[i]
    ensures CutAll(x + w, phrases) == CutAll(x, phrases) ||
            (CutAll(x + w, phrases) == x + w && CutAll(x, phrases) == x)
    decreases |phrases|
  {
    if |phrases| > 0 {
      var init := phrases[..|phrases| - 1];
      var last := phrases[|phrases| - 1];
      CutAllTrailing(x, w, init);
      if CutAll(x + w, init) != CutAll(x, init) {
        if Contains(x, last) {
          CutAtPrefixHit(x, w, last);
        } else {
          NoOccurrenceBefore(x, w, "", last);
          assert x + w + "" == x + w;
          assert !Contains(x + w, last);
        }
      }
    }
  }

  /** A text that the first phrase opens, placed after `x` and a run of
      whitespace that no phrase contains, is cut away with that whitespace:
      the passes and the strip give what they give for `x` alone. */
  lemma StripCutAllOpening(x: string, w: string, t: string, phrases: seq<string>)
    requires |phrases| > 0 && forall i :: 0 <= i < |phrases| ==> |phrases[i]| > 0
    requires |w| > 0 && AllSpace(w) && OccursAt(t, phrases[0], 0)
    requires forall i, m :: 0 <= i < |phrases| && 0 <= m < |w| ==> w[m] !in phrases[i]
    ensures Strip(CutAll(x + w + t, phrases)) == Strip(CutAll(x, phrases))
  {
    CutBeforeOpening(x, w, t, phrases[0]);
    CutAllFront(x + w + t, phrases);
    CutAllFront(x + w, phrases);
    CutAllTrailing(x, w, phrases);
    if CutAll(x + w, phrases) != CutAll(x, phrases) {
      StripAppendSpace(x, w);
    }
  }

  /** `clean_note(note)`, as a specification. */
  function Cleaned(note: string): string {
    Strip(CutAll(note, SignaturePhrases))
  }

  /** `clean_note`: run the three signature patterns in order, each on the
      previous result, then strip. */
  method CleanNote(note: string) returns (r: string)
    ensures r == Cleaned(note)
  {
    r := note;
    for i := 0 to |SignaturePhrases|
      invariant r == CutAll(note, SignaturePhrases[..i])
    {
      assert SignaturePhrases[..i + 1][..i] == SignaturePhrases[..i];
      r := CutAt(r, SignaturePhrases[i]);
    }
    assert SignaturePhrases[..|SignaturePhrases|] == SignaturePhrases;
    r := Strip(r);
  }

  /** Stripping after the cuts keeps a slice of the cut text, so it keeps
      every property `CutAllSpec` gives. */
  lemma StripCutAll(note: string, phrases: seq<string>)
    requires forall i :: 0 <= i < |phrases| ==> |phrases[i]| > 0
    ensures var r := Strip(CutAll(note, phrases));
      (forall p :: p in phrases ==> !Contains(r, p)) &&
      exists lo, hi :: 0 <= lo <= hi <= |note| && r == note[lo..hi]
  {
    var c := CutAll(note, phrases);
    CutAllSpec(note, phrases);
    var lo, hi := StripBounds(c);
    forall p | p in phrases ensures !Contains(c[lo..hi], p) {
      SliceAvoids(c, p, lo, hi);
    }
    assert c[lo..hi] == note[lo..hi];
  }

  /** A cleaned note holds none of the phrases, has no whitespace at either
      end, and is a contiguous piece of the note. */
  lemma CleanedSpec(note: string)
    ensures ContainsNoPhrase(Cleaned(note))
    ensures IsTrimmed(Cleaned(note))
    ensures exists lo, hi :: 0 <= lo <= hi <= |note| && Cleaned(note) == note[lo..hi]
  {
    StripCutAll(note, SignaturePhrases);
  }

  /** A note without any phrase is only stripped. */
  lemma CleanedNoPhrase(note: string)
    requires ContainsNoPhrase(note)
    ensures Cleaned(note) == Strip(note)
  {
    CutAllNoPhrase(note, SignaturePhrases);
  }

  /** Cleaning twice is cleaning once. */
  lemma CleanedIdempotent(note: string)
    ensures Cleaned(Cleaned(note)) == Cleaned(note)
  {
    var c := CutAll(note, SignaturePhrases);
    calc {
      Cleaned(Cleaned(note));
      { CleanedSpec(note); CleanedNoPhrase(Cleaned(note)); }
      Strip(Strip(c));
      { StripIdempotent(c); }
      Strip(c);
    }
  }

  // ---------------------------------------------------------------------
  // Documents

  /** A document for the vector store: its text and its `source` metadata. */
  datatype Document = Document(pageContent: string, source: string)

  /** `f"Note {i+1}"`: the label of the note at 0-based position `i`. */
  function NoteLabel(i: nat): string {
    "Note " + Render(i + 1)
  }

  /** `cleaned_notes`: every note cleaned, in order, empty results kept. */
  function CleanedNotes(notes: seq<string>): (cleaned: seq<string>)
    ensures |cleaned| == |notes|
  {
    seq(|notes|, i requires 0 <= i < |notes| => Cleaned(notes[i]))
  }

  /** `documents`: document `i` holds cleaned note `i`, labelled `Note i+1`. */
  function Documents(cleaned: seq<string>): (docs: seq<Document>)
    ensures |docs| == |cleaned|
  {
    seq(|cleaned|, i requires 0 <= i < |cleaned| => Document(cleaned[i], NoteLabel(i)))
  }

  /** The documents built from a corpus. */
  function CorpusDocuments(raw: string): seq<Document> {
    Documents(CleanedNotes(SplitNotes(raw)))
  }

  /** The count printed after indexing, `len(cleaned_notes)`. */
  function IndexedCount(raw: string): nat {
    |CleanedNotes(SplitNotes(raw))|
  }

  /** The printed count is the number of separators plus one, which is also
      the number of documents: no note is dropped, not even an empty one. */
  lemma IndexedCountSpec(raw: string)
    ensures IndexedCount(raw) == Count(raw, Separator) + 1
    ensures |CorpusDocuments(raw)| == IndexedCount(raw)
  {
    SplitNotesCount(raw);
  }

  /** Document `i` holds the cleaned note `i` of the corpus; it has no
      signature phrase and no surrounding whitespace, and it sits inside the
      corresponding piece of the corpus. */
  lemma CorpusDocumentsSpec(raw: string, i: nat)
    requires i < |CorpusDocuments(raw)|
    ensures CorpusDocuments(raw)[i].pageContent == Cleaned(SplitNotes(raw)[i])
    ensures CorpusDocuments(raw)[i].source == NoteLabel(i)
    ensures ContainsNoPhrase(CorpusDocuments(raw)[i].pageContent)
    ensures IsTrimmed(CorpusDocuments(raw)[i].pageContent)
  {
    CleanedSpec(SplitNotes(raw)[i]);
  }

  /** Different positions get different labels, so every document's source
      is unique. */
  lemma NoteLabelsDistinct(i: nat, j: nat)
    requires i != j
    ensures NoteLabel(i) != NoteLabel(j)
  {
    RenderInjective(i + 1, j + 1);
    var a := NoteLabel(i);
    var b := NoteLabel(j);
    assert a[5..] == Render(i + 1) && b[5..] == Render(j + 1);
  }
}
