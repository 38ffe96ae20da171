/**
 * The request body of `GenerateAudio`: a Speech Synthesis Markup Language 1.0 document
 * whose `speak` root (section 2.1.1 of the W3C SSML 1.0 Recommendation) holds one
 * `voice` element (section 2.2.1). The voice name and the text are pasted in as they
 * are: nothing is escaped, so markup characters in either reach the service verbatim.
 */
module Ssml {
  import opened Wrappers
  import opened Text

  /** Everything before the voice name: the `speak` start tag, a line break, the indentation and `<voice name='`. */
  const Opening := "<speak version='1.0' xmlns='http://www.w3.org/2001/10/synthesis' xml:lang='en-US'>\n              <voice name='"
  /** Between the voice name and the text: the end of the `voice` start tag. */
  const NameEnd := "'>"
  /** After the text. */
  const Closing := "</voice></speak>"

  /** A document of the body's shape, for any fixed opening and closing. */
  function Document(opening: string, closing: string, voiceName: string, text: string): (b: string)
    ensures |b| == |opening| + |voiceName| + |NameEnd| + |text| + |closing|
    ensures b[..|opening|] == opening && b[|b| - |closing|..] == closing
    ensures b[|opening|..|opening| + |voiceName|] == voiceName
    ensures b[|opening| + |voiceName|..|opening| + |voiceName| + |NameEnd|] == NameEnd
    ensures b[|opening| + |voiceName| + |NameEnd|..|b| - |closing|] == text
  {
    opening + voiceName + NameEnd + text + closing
  }

  /**
   * Reads a voice name and a text back out of a document: the name runs up to the
   * first quote after the opening, the text from the end of the voice start tag to
   * the closing.
   */
  function ParseDocument(opening: string, closing: string, b: string): (r: Option<(string, string)>)
  {
    if |b| < |opening| + |closing| || b[..|opening|] != opening || b[|b| - |closing|..] != closing then None
    else
      var inner := b[|opening|..|b| - |closing|];
      match IndexOf(inner, '\'')
      case None => None
      case Some(i) =>
        if i + 1 < |inner| && inner[i + 1] == '>' then Some((inner[..i], inner[i + 2..])) else None
  }

  /** The body string of Program.cs lines 140-141. */
  function RequestBody(voiceName: string, text: string): (b: string)
  {
    Document(Opening, Closing, voiceName, text)
  }

  function ParseBody(b: string): (r: Option<(string, string)>)
  {
    ParseDocument(Opening, Closing, b)
  }

  lemma DocumentRoundTrip(opening: string, closing: string, voiceName: string, text: string)
    requires '\'' !in voiceName
    ensures ParseDocument(opening, closing, Document(opening, closing, voiceName, text)) == Some((voiceName, text))
  {
    var b := Document(opening, closing, voiceName, text);
    var inner := b[|opening|..|b| - |closing|];
    assert inner == voiceName + NameEnd + text;
    assert inner[|voiceName|] == '\'';
    assert inner[..|voiceName|] == voiceName;
    assert inner[|voiceName| + 2..] == text;
  }

  lemma SplitAtNameEnd(inner: string, i: nat)
    requires i + 1 < |inner| && inner[i] == '\'' && inner[i + 1] == '>'
    ensures inner == inner[..i] + NameEnd + inner[i + 2..]
  {
    assert inner[i..i + 2] == NameEnd;
    assert inner == inner[..i] + inner[i..i + 2] + inner[i + 2..];
  }

  lemma SplitAround(b: string, m: nat, n: nat)
    requires m + n <= |b|
    ensures b == b[..m] + b[m..|b| - n] + b[|b| - n..]
  {
  }

  lemma DocumentRegroups(opening: string, closing: string, x: string, y: string)
    ensures Document(opening, closing, x, y) == opening + (x + NameEnd + y) + closing
  {
  }

  lemma ParsedDocumentRebuilds(opening: string, closing: string, b: string)
    requires ParseDocument(opening, closing, b).Some?
    ensures Document(opening, closing, ParseDocument(opening, closing, b).value.0, ParseDocument(opening, closing, b).value.1) == b
    ensures '\'' !in ParseDocument(opening, closing, b).value.0
  {
    var inner := b[|opening|..|b| - |closing|];
    var i := IndexOf(inner, '\'').value;
    var x, y := inner[..i], inner[i + 2..];
    assert ParseDocument(opening, closing, b).value == (x, y);
    SplitAtNameEnd(inner, i);
    SplitAround(b, |opening|, |closing|);
    DocumentRegroups(opening, closing, x, y);
  }

  /** A voice name without a quote, and any text at all, can be read back from the body. */
  lemma ParseRequestBody(voiceName: string, text: string)
    requires '\'' !in voiceName
    ensures ParseBody(RequestBody(voiceName, text)) == Some((voiceName, text))
  {
    DocumentRoundTrip(Opening, Closing, voiceName, text);
  }

  /** Whatever the parser accepts is exactly the body built from what it returns. */
  lemma ParsedBodyIsRequestBody(b: string)
    requires ParseBody(b).Some?
    ensures RequestBody(ParseBody(b).value.0, ParseBody(b).value.1) == b
    ensures '\'' !in ParseBody(b).value.0
  {
    ParsedDocumentRebuilds(Opening, Closing, b);
  }

  /** The same voice and two different texts never give the same body. */
  lemma RequestBodyInjective(voiceName: string, text1: string, text2: string)
    requires RequestBody(voiceName, text1) == RequestBody(voiceName, text2)
    ensures text1 == text2
  {
    var b := RequestBody(voiceName, text1);
    assert text1 == b[|Opening| + |voiceName| + |NameEnd|..|b| - |Closing|];
  }
}
