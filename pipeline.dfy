/** `extract_text` and `parse_resume`: the choice between the embedded text
    and OCR, and the reshaping of each `(value, confidence)` pair into a
    two-entry record. The PDF reader and the OCR engine are outside the
    model: their outputs are parameters. */
module Pipeline {
  import opened Text
  import opened Record
  import RecordFacts

  /** Below this many characters, once stripped, the embedded text is taken
      to come from a scanned page. */
  const MinEmbeddedLength := 50

  /** `extract_text`: the embedded text is kept when it has at least
      `MinEmbeddedLength` characters once surrounding whitespace is
      stripped; otherwise the OCR text replaces it. `embedded` and `ocr`
      stand for what pdfplumber and EasyOCR return for the file. */
  method ExtractText(embedded: string, ocr: string) returns (text: string, usedOcr: bool)
    ensures usedOcr <==> |Strip(embedded)| < MinEmbeddedLength
    ensures usedOcr ==> text == ocr
    ensures !usedOcr ==> text == embedded
  {
    text := embedded;
    usedOcr := false;
    if |Strip(text)| < MinEmbeddedLength {
      usedOcr := true;
      text := ocr;
    }
  }

  /** The text `extract_text` goes on with. */
  function ChosenText(embedded: string, ocr: string): string {
    if |Strip(embedded)| < MinEmbeddedLength then ocr else embedded
  }

  /** Whitespace around the embedded text never changes the choice, and a
      text with `MinEmbeddedLength` characters between its first and last
      non-whitespace character is always kept. */
  lemma ChoiceIgnoresPadding(w1: string, embedded: string, w2: string, ocr: string)
    requires forall i :: 0 <= i < |w1| ==> IsSpace(w1[i])
    requires forall i :: 0 <= i < |w2| ==> IsSpace(w2[i])
    ensures ChosenText(w1 + embedded + w2, ocr) == (if |Strip(embedded)| < MinEmbeddedLength then ocr else w1 + embedded + w2)
  {
    StripPadded(w1, embedded, w2);
  }

  /** A text whose first and last characters are not whitespace is kept
      exactly when it is at least `MinEmbeddedLength` long. */
  lemma ChoiceOfStrippedText(embedded: string, ocr: string)
    requires StrippedBy(embedded, IsSpace)
    ensures |embedded| >= MinEmbeddedLength ==> ChosenText(embedded, ocr) == embedded
    ensures |embedded| < MinEmbeddedLength ==> ChosenText(embedded, ocr) == ocr
  {
    StripStable(embedded, IsSpace);
  }

  /** `{"value": value, "confidence": score}` */
  datatype Entry = Entry(value: Value, confidence: int)

  /** The pairs recovered from reshaped records. */
  function Unwrap(final: map<Key, Entry>): map<Key, Scored> {
    map k | k in final :: Scored(final[k].value, final[k].confidence)
  }

  /** The reshaping loop of `parse_resume`: one record per key, holding the
      key's value and confidence. The keys are visited in the dictionary's
      order. */
  method Reshape(structured: map<Key, Scored>) returns (final: map<Key, Entry>)
    ensures final.Keys == structured.Keys
    ensures forall k :: k in structured ==>
      final[k].value == structured[k].value && final[k].confidence == structured[k].confidence
    ensures Unwrap(final) == structured
  {
    final := map[];
    for i := 0 to |FieldOrder|
      invariant forall k :: k in final <==> k in structured && Position(k) < i
      invariant forall k :: k in final ==>
        final[k].value == structured[k].value && final[k].confidence == structured[k].confidence
    {
      var key := FieldOrder[i];
      if key in structured {
        final := final[key := Entry(structured[key].value, structured[key].confidence)];
      }
    }
  }

  /** `parse_resume`: the text is chosen, the fields are extracted from it,
      and each pair is reshaped. Every key is present, a confidence is 1
      exactly when its value is truthy, and the pairs are those of
      `extract_resume_data` on the chosen text. */
  method ParseResume(embedded: string, ocr: string) returns (finalData: map<Key, Entry>)
    ensures Unwrap(finalData) == ResumeRecord(ChosenText(embedded, ocr))
    ensures forall k: Key :: k in finalData
    ensures forall k: Key :: k in finalData ==>
      (finalData[k].confidence == 1 <==> !IsFalsy(finalData[k].value))
    ensures forall k: Key :: k in finalData ==>
      (finalData[k].confidence == 0 <==> finalData[k].value == Null)
  {
    var text, usedOcr := ExtractText(embedded, ocr);
    var structuredData := ExtractResumeData(text);
    finalData := Reshape(structuredData);
    forall k: Key ensures k in finalData && (finalData[k].confidence == 1 <==> !IsFalsy(finalData[k].value))
      && (finalData[k].confidence == 0 <==> finalData[k].value == Null)
    {
      RecordFacts.Confidence(text, k);
    }
  }
}
