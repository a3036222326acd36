/**
 * extractMetadata (index.js:46-82): one case record per `div.post`
 * container, in document order, each field cleaned by
 * `text.trim().replace(LABEL, '').trim()` and the date passed through a
 * date formatter.
 */
module Extraction {
  import opened JsString

  /** One `div.post` container, as the texts its eight selectors yield; an
      element that is absent yields "". */
  datatype Container = Container(
    title: string,          // h2
    caseNumber: string,     // .case-number
    dateDelivered: string,  // .date-delivered
    judge: string,          // .bg:contains("Judge:")
    court: string,          // .bg:contains("Court:")
    parties: string,        // .bg:contains("Parties:")
    advocates: string,      // .bg:contains("Advocates:")
    citation: string)       // p:contains("Citation:")

  /** The object pushed for each container, fields in the order the source
      writes them. */
  datatype CaseRecord = CaseRecord(
    caseTitle: string,
    caseNumber: string,
    dateDelivered: string,
    judge: string,
    court: string,
    parties: string,
    advocates: string,
    citation: string)

  /** Loading a page into the HTML parser and selecting its `div.post`
      containers, in document order. */
  type Selector = string -> seq<Container>

  /** `moment(text, 'D MMMM YYYY').format('YYYY-MM-DD')`. */
  type DateFormatter = string -> string

  const CaseNumberLabel := "Case Number:"
  const DateDeliveredLabel := "Date Delivered:"
  const JudgeLabel := "Judge:"
  const CourtLabel := "Court:"
  const PartiesLabel := "Parties:"
  const AdvocatesLabel := "Advocates:"
  const CitationLabel := "Citation:"

  /** `text.trim().replace(fieldLabel, '').trim()`: never starts or ends
      with whitespace. */
  function CleanField(text: string, fieldLabel: string): (r: string)
    ensures IsTrimmed(r)
  {
    Trim(RemoveFirst(Trim(text), fieldLabel))
  }

  /** Text in which the label does not occur comes back merely trimmed. */
  lemma CleanWithoutLabel(text: string, fieldLabel: string)
    requires IndexOf(Trim(text), fieldLabel).None?
    ensures CleanField(text, fieldLabel) == Trim(text)
  {
    TrimIdempotent(text);
    RemoveFirstAbsent(Trim(text), fieldLabel);
  }

  /** A field whose trimmed text starts with its label yields what follows
      the label, trimmed; any later occurrence of the label is kept. */
  lemma CleanLabelled(text: string, fieldLabel: string, value: string)
    requires Trim(text) == fieldLabel + value
    ensures CleanField(text, fieldLabel) == Trim(value)
  {
    var t := Trim(text);
    assert OccursAt(t, fieldLabel, 0) by { assert t[0..|fieldLabel|] == fieldLabel; }
    RemoveFirstRestores(t, fieldLabel, 0);
    var r := RemoveFirst(t, fieldLabel);
    assert r[..0] + fieldLabel + r[0..] == fieldLabel + r;
  }

  /** A missing element (empty text) gives an empty field. */
  lemma CleanMissing(text: string, fieldLabel: string)
    requires text == ""
    ensures CleanField(text, fieldLabel) == ""
  {
    assert Trim(text) == "";
  }

  /** Cleaning a cleaned field changes nothing when the label does not occur
      in it again. */
  lemma CleanStableWithoutLabel(text: string, fieldLabel: string)
    requires IndexOf(CleanField(text, fieldLabel), fieldLabel).None?
    ensures CleanField(CleanField(text, fieldLabel), fieldLabel) == CleanField(text, fieldLabel)
  {
    var cleaned := CleanField(text, fieldLabel);
    TrimIdempotent(RemoveFirst(Trim(text), fieldLabel));
    RemoveFirstAbsent(cleaned, fieldLabel);
  }

  /** ... but in general cleaning is not stable: only the first occurrence of
      the label is removed per pass. */
  lemma CleanNotIdempotent()
    ensures CleanField("Judge: Judge: X", JudgeLabel) == "Judge: X"
    ensures CleanField("Judge: X", JudgeLabel) == "X"
  {
    var twice, once, x := "Judge: Judge: X", "Judge: X", "X";
    assert Trim(twice) == twice by { TrimOfPadded([], twice, []); assert [] + twice + [] == twice; }
    assert Trim(once) == once by { TrimOfPadded([], once, []); assert [] + once + [] == once; }
    assert Trim(" " + once) == once by { TrimOfPadded(" ", once, []); assert " " + once + [] == " " + once; }
    assert Trim(" " + x) == x by { TrimOfPadded(" ", x, []); assert " " + x + [] == " " + x; }
    assert twice == JudgeLabel + (" " + once);
    CleanLabelled(twice, JudgeLabel, " " + once);
    assert once == JudgeLabel + (" " + x);
    CleanLabelled(once, JudgeLabel, " " + x);
  }

  /** The record for one container: the title trimmed only, every labelled
      field cleaned with its own label, the date formatted after cleaning. */
  function BuildRecord(c: Container, format: DateFormatter): CaseRecord {
    CaseRecord(
      caseTitle := Trim(c.title),
      caseNumber := CleanField(c.caseNumber, CaseNumberLabel),
      dateDelivered := format(CleanField(c.dateDelivered, DateDeliveredLabel)),
      judge := CleanField(c.judge, JudgeLabel),
      court := CleanField(c.court, CourtLabel),
      parties := CleanField(c.parties, PartiesLabel),
      advocates := CleanField(c.advocates, AdvocatesLabel),
      citation := CleanField(c.citation, CitationLabel))
  }

  /** No string field of a record starts or ends with whitespace; the date
      is the formatter's output for the cleaned date text. */
  lemma RecordFieldsTrimmed(c: Container, format: DateFormatter)
    ensures var r := BuildRecord(c, format);
            && IsTrimmed(r.caseTitle) && IsTrimmed(r.caseNumber) && IsTrimmed(r.judge)
            && IsTrimmed(r.court) && IsTrimmed(r.parties) && IsTrimmed(r.advocates)
            && IsTrimmed(r.citation)
            && r.dateDelivered == format(CleanField(c.dateDelivered, DateDeliveredLabel))
  {
  }

  /** A container in which no selector found anything still yields a record:
      all fields empty, the date being whatever the formatter makes of "". */
  lemma EmptyContainerKept(c: Container, format: DateFormatter)
    requires c.title == "" && c.caseNumber == "" && c.dateDelivered == "" && c.judge == ""
    requires c.court == "" && c.parties == "" && c.advocates == "" && c.citation == ""
    ensures var r := BuildRecord(c, format);
            && r.caseTitle == "" && r.caseNumber == "" && r.dateDelivered == format("")
            && r.judge == "" && r.court == "" && r.parties == "" && r.advocates == ""
            && r.citation == ""
  {
    assert Trim(c.title) == "";
    CleanMissing(c.caseNumber, CaseNumberLabel);
    CleanMissing(c.dateDelivered, DateDeliveredLabel);
    CleanMissing(c.judge, JudgeLabel);
    CleanMissing(c.court, CourtLabel);
    CleanMissing(c.parties, PartiesLabel);
    CleanMissing(c.advocates, AdvocatesLabel);
    CleanMissing(c.citation, CitationLabel);
  }

  /** The title is trimmed but not label-stripped: a title without
      surrounding whitespace comes back unchanged, whatever label it starts
      with. */
  lemma TitleKeepsLabel(c: Container, format: DateFormatter)
    requires IsTrimmed(c.title)
    ensures BuildRecord(c, format).caseTitle == c.title
  {
    TrimOfPadded([], c.title, []);
    assert [] + c.title + [] == c.title;
  }

  /** The records of a page's containers: one per container. */
  function Records(cs: seq<Container>, format: DateFormatter): (r: seq<CaseRecord>)
    ensures |r| == |cs|
  {
    if cs == [] then [] else Records(cs[..|cs| - 1], format) + [BuildRecord(cs[|cs| - 1], format)]
  }

  /** ... at the container's own position: none dropped, none reordered. */
  lemma {:induction false} RecordsAt(cs: seq<Container>, format: DateFormatter, i: nat)
    requires i < |cs|
    ensures Records(cs, format)[i] == BuildRecord(cs[i], format)
  {
    if i < |cs| - 1 {
      RecordsAt(cs[..|cs| - 1], format, i);
    }
  }

  /** extractMetadata(html): walks the page's containers in document order
      and pushes one record for each. */
  method ExtractMetadata(html: string, select: Selector, format: DateFormatter)
    returns (metadata: seq<CaseRecord>)
    ensures |metadata| == |select(html)|
    ensures forall i :: 0 <= i < |metadata| ==> metadata[i] == BuildRecord(select(html)[i], format)
    ensures metadata == Records(select(html), format)
  {
    var containers := select(html);
    metadata := [];
    var i := 0;
    while i < |containers|
      invariant 0 <= i <= |containers|
      invariant metadata == Records(containers[..i], format)
    {
      var caseMetadata := BuildRecord(containers[i], format);
      metadata := metadata + [caseMetadata];
      i := i + 1;
      assert containers[..i][..i - 1] == containers[..i - 1];
    }
    assert containers[..i] == containers;
    forall k | 0 <= k < |metadata|
      ensures metadata[k] == BuildRecord(containers[k], format)
    {
      RecordsAt(containers, format, k);
    }
  }
}
