/** `NoteForm.clean_title` (notes/forms.py): the title a user submits is
    normalised to single-spaced words and rejected when the result is
    shorter than three characters. */
module NoteForm {
  import opened Results
  import opened PyStr

  /** The shortest title the form accepts. */
  const MinTitleLength: nat := 3

  /** The message of the validation error raised for a short title. */
  const TitleTooShortMessage: string := "Titel moet minstens 3 tekens bevatten."

  /** A Django `forms.ValidationError` with its message. */
  datatype ValidationError = ValidationError(message: string)

  /** `" ".join(title.split())`: whitespace runs collapse to one plain space
      and both ends are trimmed. The result is in normal form, has exactly
      the words of the input, keeps every non-whitespace character in order,
      and is never longer than the input. */
  function NormalizeTitle(title: string): (r: string)
    ensures SingleSpaced(r)
    ensures Split(r) == Split(title)
    ensures NonSpace(r) == NonSpace(title)
    ensures |r| <= |title|
  {
    var ws := Split(title);
    JoinSingleSpaced(ws);
    SplitJoin(ws);
    JoinContent(ws);
    SplitContent(title);
    JoinSplitShrinks(title);
    Join(ws)
  }

  /** `clean_title`: `cleaned` is the form's cleaned value for "title", absent
      when the key is missing (then the empty string is used). A title that
      is shorter than three characters after normalisation is rejected with
      the "minstens 3 tekens" error; otherwise the normalised title is the
      cleaned value. */
  function CleanTitle(cleaned: Option<string>): (r: Result<string, ValidationError>)
    ensures var raw := cleaned.GetOr("");
      && (r.Ok? ==> SingleSpaced(r.value) && Split(r.value) == Split(raw)
                    && NonSpace(r.value) == NonSpace(raw) && |r.value| >= MinTitleLength)
      && (r.Err? <==> |NormalizeTitle(raw)| < MinTitleLength)
      && (r.Err? ==> r.error.message == TitleTooShortMessage)
  {
    var title := NormalizeTitle(cleaned.GetOr(""));
    if |title| < MinTitleLength then Err(ValidationError(TitleTooShortMessage))
    else Ok(title)
  }

  // ---------------------------------------------------------------------
  // Lemmas

  /** Normalising a normalised title changes nothing. */
  lemma NormalizeIdempotent(title: string)
    ensures NormalizeTitle(NormalizeTitle(title)) == NormalizeTitle(title)
  {
    JoinSplitOfSingleSpaced(NormalizeTitle(title));
  }

  /** The normalised title is the only normal-form string with the same words
      as the input: normalisation is a projection onto single-spaced strings. */
  lemma NormalizeCharacterised(title: string, t: string)
    ensures t == NormalizeTitle(title) <==> SingleSpaced(t) && Split(t) == Split(title)
  {
    if SingleSpaced(t) && Split(t) == Split(title) {
      JoinSplitOfSingleSpaced(t);
    }
  }

  /** A title in normal form is its own normalisation, and only such titles
      are. */
  lemma NormalizeFixpoints(t: string)
    ensures NormalizeTitle(t) == t <==> SingleSpaced(t)
  {
    if SingleSpaced(t) {
      JoinSplitOfSingleSpaced(t);
    }
  }

  /** The length of the normalised title: its words' characters plus one space
      between each pair of neighbouring words. */
  lemma NormalizedLength(title: string)
    ensures |NormalizeTitle(title)| == if Split(title) == [] then 0
                                       else |NonSpace(title)| + |Split(title)| - 1
  {
    var ws := Split(title);
    if ws != [] {
      SplitContent(title);
    }
  }

  /** Acceptance read off the input: a title with at least three
      non-whitespace characters is always accepted, one with at most one is
      always rejected (two characters pass only when separated, as "a b"). */
  lemma TitleAcceptance(cleaned: Option<string>)
    ensures |NonSpace(cleaned.GetOr(""))| >= MinTitleLength ==> CleanTitle(cleaned).Ok?
    ensures |NonSpace(cleaned.GetOr(""))| <= 1 ==> CleanTitle(cleaned).Err?
  {
    var raw := cleaned.GetOr("");
    NormalizedLength(raw);
    SplitContent(raw);
    WordCountBound(Split(raw));
  }

  /** "  A " is rejected with the "minstens 3 tekens" error. */
  lemma ShortTitleRejected()
    ensures CleanTitle(Some("  A ")) == Err(ValidationError(TitleTooShortMessage))
  {
    TitleAcceptance(Some("  A "));
    assert NonSpace("  A ") == "A";
  }

  /** The empty title is rejected, and so is a missing one. */
  lemma EmptyTitleRejected()
    ensures CleanTitle(Some("")) == Err(ValidationError(TitleTooShortMessage))
    ensures CleanTitle(None) == Err(ValidationError(TitleTooShortMessage))
  {
  }

  /** "  Geldige titel  " is accepted as "Geldige titel". */
  lemma PaddedTitleTrimmed()
    ensures CleanTitle(Some("  Geldige titel  ")) == Ok("Geldige titel")
  {
    var raw := "  Geldige titel  ";
    var t := "Geldige titel";
    PaddedTitleShape();
    PaddedTitleWords();
    SplitSkipsSpace(' ', " Geldige titel  ");
    SplitSkipsSpace(' ', "Geldige titel  ");
    SplitWordWs("Geldige", ' ', "titel  ");
    SplitWordWs("titel", ' ', " ");
    SplitSkipsSpace(' ', "");
    SplitWordWs("Geldige", ' ', "titel");
    SplitWord("titel");
    NormalizeCharacterised(raw, t);
  }

  /** How the padded example title decomposes into words and spaces. */
  lemma PaddedTitleShape()
    ensures "  Geldige titel  " == [' '] + " Geldige titel  "
    ensures " Geldige titel  " == [' '] + "Geldige titel  "
    ensures "Geldige titel  " == "Geldige" + " " + "titel  "
    ensures "titel  " == "titel" + " " + " "
    ensures " " == [' '] + ""
    ensures "Geldige titel" == "Geldige" + " " + "titel"
  {
  }

  /** The words of the padded example title. */
  lemma PaddedTitleWords()
    ensures IsWord("Geldige") && IsWord("titel")
    ensures SingleSpaced("Geldige titel")
  {
  }
}
