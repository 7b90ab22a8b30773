/**
 * The two pages around the S3 bucket: the requester page overwrites the stored request list
 * with one summarised request; the submitter page loads the list, asks for a summary, stores
 * an uploaded file under its own name and runs the compliance check on its OCR lines.
 * Every model answer (a Bedrock response) and every Textract response is a parameter.
 */
module Pipeline {
  import opened Wrappers
  import opened Text
  import Bedrock
  import Textract
  import opened Compliance
  import opened Bytes

  /** What ends a page run before it completes. */
  datatype PipelineError =
    | NoRequests                                 // NoSuchKey on the request list: warning and st.stop()
    | UnreadableRequests                         // the stored object is not a request list
    | TextractJobFailed(message: string)         // RuntimeError from the poll loop
    | BlankDocumentName(doc: string)             // IndexError from `doc.split()[0]`
    | MalformedResponse(error: Bedrock.DecodeError)

  /** The compliance check ends in success, or with the names not found and the model's message. */
  datatype Outcome =
    | AllCompliant
    | NonCompliant(missing: seq<string>, prompt: string, message: Bedrock.Json)

  /**
   * An object in the bucket. The request list is kept as parsed records; an uploaded file as
   * its bytes (JSON text is not parsed here, so bytes never read back as a request list).
   */
  datatype StoredObject = RequestList(requests: seq<AuditRequest>) | FileBytes(content: seq<byte>)

  /** A file handed to the uploader. */
  datatype Upload = Upload(name: string, content: seq<byte>)

  /** What the submitter page shows: the summary, and the check's outcome when a file came. */
  datatype View = View(summary: Bedrock.Json, check: Option<Outcome>)

  const RequestsKey := "audit_requests.json"

  /** The compliance verdicts for given OCR lines, and the corrective message when needed. */
  function Evaluate(page: Page, requests: seq<AuditRequest>, lines: seq<string>, corrResp: Bedrock.Response)
    : Result<Outcome, PipelineError>
  {
    match VerdictsOf(requests, lines)
    case Failure(doc) => Failure(BlankDocumentName(doc))
    case Success(d) =>
      var missing := Missing(d);
      if missing == [] then Success(AllCompliant)
      else
        var prompt := CorrectivePrompt(page, lines, missing);
        match Bedrock.Decode(corrResp)
        case Failure(e) => Failure(MalformedResponse(e))
        case Success(message) => Success(NonCompliant(missing, prompt, message))
  }

  /** The whole check of one stored upload: detection, then evaluation of its LINE blocks. */
  function UploadOutcome(page: Page, requests: seq<AuditRequest>, filename: string, jobId: string,
                         script: seq<Textract.JobResponse>, syncBlocks: seq<Textract.Block>, corrResp: Bedrock.Response)
    : Result<Outcome, PipelineError>
    requires Textract.ModeOf(filename) == Textract.Async ==> Textract.HasTerminal(script)
  {
    match Textract.OcrOutcome(filename, jobId, script, syncBlocks)
    case Failure(message) => Failure(TextractJobFailed(message))
    case Success(blocks) => Evaluate(page, requests, Textract.ExtractLines(blocks), corrResp)
  }

  /** True when the check reaches the corrective prompt. */
  predicate AsksForCorrection(page: Page, requests: seq<AuditRequest>, filename: string, jobId: string,
                              script: seq<Textract.JobResponse>, syncBlocks: seq<Textract.Block>)
    requires Textract.ModeOf(filename) == Textract.Async ==> Textract.HasTerminal(script)
  {
    && Textract.OcrOutcome(filename, jobId, script, syncBlocks).Success?
    && var lines := Textract.ExtractLines(Textract.OcrOutcome(filename, jobId, script, syncBlocks).value);
       VerdictsOf(requests, lines).Success? && Missing(VerdictsOf(requests, lines).value) != []
  }

  /**
   * app.py:153-193 and auditee_page.py:104-139: build the verdict dict over the OCR lines,
   * and when some document is missing send one corrective prompt and decode the answer.
   * `prompts` lists the corrective prompts sent to the model.
   */
  method CheckLines(page: Page, requests: seq<AuditRequest>, lines: seq<string>, corrResp: Bedrock.Response)
    returns (r: Result<Outcome, PipelineError>, prompts: seq<string>)
    ensures r == Evaluate(page, requests, lines, corrResp)
    ensures prompts != [] <==> VerdictsOf(requests, lines).Success? && Missing(VerdictsOf(requests, lines).value) != []
    ensures prompts != [] ==> prompts == [CorrectivePrompt(page, lines, Missing(VerdictsOf(requests, lines).value))]
  {
    prompts := [];
    var compliance := BuildCompliance(requests, lines);
    if compliance.Failure? {
      return Failure(BlankDocumentName(compliance.error)), prompts;
    }
    var missing := Missing(compliance.value);
    if missing == [] {
      return Success(AllCompliant), prompts;
    }
    var prompt := CorrectivePrompt(page, lines, missing);
    prompts := [prompt];
    var message := Bedrock.Decode(corrResp);
    if message.Failure? {
      return Failure(MalformedResponse(message.error)), prompts;
    }
    r := Success(NonCompliant(missing, prompt, message.value));
  }

  /**
   * app.py:127-193 and auditee_page.py:82-139: detect text (one synchronous call, or a started
   * job polled until terminal), keep the LINE blocks and check them.
   */
  method CheckUpload(page: Page, requests: seq<AuditRequest>, filename: string, jobId: string,
                     script: seq<Textract.JobResponse>, syncBlocks: seq<Textract.Block>, corrResp: Bedrock.Response)
    returns (r: Result<Outcome, PipelineError>, ocrCalls: seq<Textract.OcrCall>, prompts: seq<string>)
    requires Textract.ModeOf(filename) == Textract.Async ==> Textract.HasTerminal(script)
    ensures r == UploadOutcome(page, requests, filename, jobId, script, syncBlocks, corrResp)
    ensures Textract.ModeOf(filename) == Textract.Sync ==> ocrCalls == [Textract.DetectDocumentText(filename)]
    ensures Textract.ModeOf(filename) == Textract.Async ==>
      |ocrCalls| == Textract.FirstTerminal(script) + 2 && ocrCalls[0] == Textract.StartDocumentTextDetection(filename)
    ensures |prompts| <= 1
    ensures prompts != [] <==> AsksForCorrection(page, requests, filename, jobId, script, syncBlocks)
  {
    var blocks;
    blocks, ocrCalls := Textract.RunOcr(filename, jobId, script, syncBlocks);
    if blocks.Failure? {
      return Failure(TextractJobFailed(blocks.error)), ocrCalls, [];
    }
    r, prompts := CheckLines(page, requests, Textract.ExtractLines(blocks.value), corrResp);
  }

  /** With no stored requests there is nothing to miss: any upload passes. */
  lemma NoRequestsAllCompliant(page: Page, lines: seq<string>, corrResp: Bedrock.Response)
    ensures Evaluate(page, [], lines, corrResp) == Success(AllCompliant)
  {
    EdgeCases([], lines);
  }

  /**
   * When no name is blank, the check passes exactly when every request's keyword occurs
   * in some line, and otherwise it names exactly the distinct documents whose keyword
   * occurs in none, in a prompt that mentions each of them.
   */
  lemma {:induction false} EvaluateVerdict(page: Page, requests: seq<AuditRequest>, lines: seq<string>, corrResp: Bedrock.Response)
    requires forall i :: 0 <= i < |requests| ==> !AllSpace(requests[i].doc)
    ensures Evaluate(page, requests, lines, corrResp) == Success(AllCompliant)
            <==> forall i :: 0 <= i < |requests| ==> Compliant(requests[i].doc, lines)
    ensures Evaluate(page, requests, lines, corrResp) != Success(AllCompliant) ==>
      match Bedrock.Decode(corrResp)
      case Failure(e) => Evaluate(page, requests, lines, corrResp) == Failure(MalformedResponse(e))
      case Success(message) =>
        && Evaluate(page, requests, lines, corrResp).Success?
        && var o := Evaluate(page, requests, lines, corrResp).value;
        && o.NonCompliant? && o.message == message
        && o.prompt == CorrectivePrompt(page, lines, o.missing)
        && (forall x :: x in o.missing <==> x in RequestDocs(requests) && !Compliant(x, lines))
        && (forall i, j :: 0 <= i < j < |o.missing| ==> o.missing[i] != o.missing[j])
  {
    VerdictsFailIffBlank(requests, lines);
    CorrectiveIffSomeNonCompliant(requests, lines);
    VerdictsContents(requests, lines);
    var d := VerdictsOf(requests, lines).value;
    var missing := Missing(d);
    if missing != [] {
      forall i, j | 0 <= i < j < |missing|
        ensures missing[i] != missing[j]
      {
        MissingRepeatsNothing(d, i, j);
      }
    }
  }

  /** The dict has each key once, so the missing list repeats no name. */
  lemma MissingRepeatsNothing(d: Verdicts, i: nat, j: nat)
    requires WellFormed(d)
    requires i < j < |Missing(d)|
    ensures Missing(d)[i] != Missing(d)[j]
  {
    MissingAmongDistinct(d.keys, d.compliant);
    assert Missing(d) == MissingAmong(d.keys, d.compliant);
  }

  predicate NoRepeats(s: seq<string>) {
    forall i, j :: 0 <= i < j < |s| ==> s[i] != s[j]
  }

  lemma {:induction false} MissingAmongDistinct(keys: seq<string>, compliant: map<string, bool>)
    requires forall k :: k in keys ==> k in compliant
    requires NoRepeats(keys)
    ensures NoRepeats(MissingAmong(keys, compliant))
    decreases |keys|
  {
    if keys != [] {
      assert NoRepeats(keys[1..]) by {
        forall i, j | 0 <= i < j < |keys[1..]|
          ensures keys[1..][i] != keys[1..][j]
        {
          assert keys[1..][i] == keys[i + 1] && keys[1..][j] == keys[j + 1];
        }
      }
      MissingAmongDistinct(keys[1..], compliant);
      var rest := MissingAmong(keys[1..], compliant);
      assert keys[0] !in rest;
      var m := MissingAmong(keys, compliant);
      if !compliant[keys[0]] {
        assert m == [keys[0]] + rest;
        forall i, j | 0 <= i < j < |m|
          ensures m[i] != m[j]
        {
          assert m[j] == rest[j - 1] && m[j] in rest;
          if i > 0 {
            assert m[i] == rest[i - 1];
          }
        }
      } else {
        assert m == rest;
      }
    }
  }

  /** The first blank name in list order ends the check, whatever the lines and the model say. */
  lemma EvaluateBlank(page: Page, requests: seq<AuditRequest>, lines: seq<string>, corrResp: Bedrock.Response, i: nat)
    requires i < |requests| && AllSpace(requests[i].doc)
    requires forall j :: 0 <= j < i ==> !AllSpace(requests[j].doc)
    ensures Evaluate(page, requests, lines, corrResp) == Failure(BlankDocumentName(requests[i].doc))
  {
    VerdictsNameFirstBlank(requests, lines, i);
  }

  /** Both pages reach the same verdict; they differ only in the corrective prompt's wording. */
  lemma PagesAgree(requests: seq<AuditRequest>, lines: seq<string>, corrResp: Bedrock.Response)
    ensures var a := Evaluate(AppPage, requests, lines, corrResp);
      var b := Evaluate(AuditeePage, requests, lines, corrResp);
      && a.Success? == b.Success?
      && (a.Failure? ==> a == b)
      && (a.Success? ==> a.value.NonCompliant? == b.value.NonCompliant?)
      && (a.Success? && a.value.NonCompliant? ==>
            a.value.missing == b.value.missing && a.value.message == b.value.message
            && a.value.prompt == ComplianceIntro + NoDisclaimer + b.value.prompt[|ComplianceIntro|..])
  {
    if VerdictsOf(requests, lines).Success? {
      DisclaimerOnlyInApp(lines, Missing(VerdictsOf(requests, lines).value));
    }
  }

  /** The stored request list, if any: a missing key stops the submitter page. */
  function StoredRequests(objects: map<string, StoredObject>): Result<seq<AuditRequest>, PipelineError> {
    if RequestsKey !in objects then Failure(NoRequests)
    else match objects[RequestsKey]
      case RequestList(requests) => Success(requests)
      case FileBytes(_) => Failure(UnreadableRequests)
  }

  /**
   * The bucket after the requester page submits `doc`/`desc`: the list is replaced by the
   * single new request carrying the decoded summary; a missing list reads as empty, an
   * unreadable one or an undecodable answer leaves the bucket as it was.
   */
  function AfterSubmit(objects: map<string, StoredObject>, doc: string, desc: string, resp: Bedrock.Response)
    : map<string, StoredObject>
  {
    if RequestsKey in objects && objects[RequestsKey].FileBytes? then objects
    else match Bedrock.Decode(resp)
      case Failure(_) => objects
      case Success(summary) => objects[RequestsKey := RequestList([AuditRequest(doc, desc, Some(summary))])]
  }

  /**
   * Whatever was stored before, a successful submission leaves exactly one request, the new
   * one, and touches no other key.
   */
  lemma SubmitOverwrites(objects: map<string, StoredObject>, doc: string, desc: string, resp: Bedrock.Response)
    requires RequestsKey in objects ==> objects[RequestsKey].RequestList?
    requires Bedrock.Decode(resp).Success?
    ensures StoredRequests(AfterSubmit(objects, doc, desc, resp))
            == Success([AuditRequest(doc, desc, Some(Bedrock.Decode(resp).value))])
    ensures forall k :: k != RequestsKey ==> (k in objects <==> k in AfterSubmit(objects, doc, desc, resp))
    ensures forall k :: k != RequestsKey && k in objects ==> AfterSubmit(objects, doc, desc, resp)[k] == objects[k]
  {
  }

  /** Two submissions in a row: only the second request survives. */
  lemma LastSubmissionWins(objects: map<string, StoredObject>, doc1: string, desc1: string, resp1: Bedrock.Response,
                           doc2: string, desc2: string, resp2: Bedrock.Response)
    requires RequestsKey in objects ==> objects[RequestsKey].RequestList?
    requires Bedrock.Decode(resp2).Success?
    ensures StoredRequests(AfterSubmit(AfterSubmit(objects, doc1, desc1, resp1), doc2, desc2, resp2))
            == Success([AuditRequest(doc2, desc2, Some(Bedrock.Decode(resp2).value))])
  {
    var mid := AfterSubmit(objects, doc1, desc1, resp1);
    assert RequestsKey in mid ==> mid[RequestsKey].RequestList?;
    SubmitOverwrites(mid, doc2, desc2, resp2);
  }

  /** The submitter page's result, from the bucket it starts with. */
  function ViewOutcome(page: Page, objects: map<string, StoredObject>, summaryResp: Bedrock.Response,
                       upload: Option<Upload>, jobId: string, script: seq<Textract.JobResponse>,
                       syncBlocks: seq<Textract.Block>, corrResp: Bedrock.Response): Result<View, PipelineError>
    requires upload.Some? && Textract.ModeOf(upload.value.name) == Textract.Async ==> Textract.HasTerminal(script)
  {
    match StoredRequests(objects)
    case Failure(e) => Failure(e)
    case Success(requests) =>
      match Bedrock.Decode(summaryResp)
      case Failure(e) => Failure(MalformedResponse(e))
      case Success(summary) =>
        if upload.None? then Success(View(summary, None))
        else
          match UploadOutcome(page, requests, upload.value.name, jobId, script, syncBlocks, corrResp)
          case Failure(e) => Failure(e)
          case Success(o) => Success(View(summary, Some(o)))
  }

  /** The submitter page's bucket afterwards: the upload is stored once the summary is shown. */
  function ViewObjects(objects: map<string, StoredObject>, summaryResp: Bedrock.Response, upload: Option<Upload>)
    : map<string, StoredObject>
  {
    if StoredRequests(objects).Success? && Bedrock.Decode(summaryResp).Success? && upload.Some? then
      objects[upload.value.name := FileBytes(upload.value.content)]
    else objects
  }

  /** The extensions the pages' uploaders accept: `type=["pdf", "png", "jpg"]`. */
  const UploaderTypes: set<string> := {"pdf", "png", "jpg"}

  /** A name the uploader lets through: it has a dot, and the lower-cased text after the last one is an accepted type. */
  predicate UploaderAccepts(name: string) {
    '.' in name && Textract.RsplitExtension(name) in UploaderTypes
  }

  /**
   * The uploader cannot produce the request list's own name, so storing an upload never
   * touches the list: the next visit reads the same requests.
   */
  lemma UploadKeepsRequests(objects: map<string, StoredObject>, summaryResp: Bedrock.Response, upload: Option<Upload>)
    requires upload.Some? ==> UploaderAccepts(upload.value.name)
    ensures StoredRequests(ViewObjects(objects, summaryResp, upload)) == StoredRequests(objects)
  {
    AfterLastShape(RequestsKey, '.');
    assert TailAfterLast(RequestsKey, '.', "json");
    SuffixAfterSeparatorUnique(RequestsKey, '.', AfterLast(RequestsKey, '.'), "json");
    assert |Textract.RsplitExtension(RequestsKey)| == 4;
  }

  /** The S3 bucket both pages share, keyed by object name. */
  class Bucket {
    var objects: map<string, StoredObject>

    constructor(objects: map<string, StoredObject>)
      ensures this.objects == objects
    {
      this.objects := objects;
    }

    /** `get_object` plus `json.loads` on the request list. */
    method LoadRequests() returns (r: Result<seq<AuditRequest>, PipelineError>)
      ensures r == StoredRequests(objects)
      ensures r.Failure? ==> (r.error == NoRequests <==> RequestsKey !in objects)
    {
      if RequestsKey !in objects {
        return Failure(NoRequests);
      }
      var stored := objects[RequestsKey];
      if stored.FileBytes? {
        return Failure(UnreadableRequests);
      }
      return Success(stored.requests);
    }

    /**
     * app.py:26-72: load the list (a missing one reads as empty), ask the model to summarise
     * the new request, and store a list holding only that request.
     */
    method SubmitRequest(doc: string, desc: string, resp: Bedrock.Response)
      returns (summary: Result<Bedrock.Json, PipelineError>, prompt: Option<string>)
      modifies this
      ensures prompt == if old(StoredRequests(objects)) == Failure(UnreadableRequests) then None
                        else Some(RequesterPrompt(doc, desc))
      ensures objects == AfterSubmit(old(objects), doc, desc, resp)
      ensures summary.Success? <==> old(StoredRequests(objects)) != Failure(UnreadableRequests) && Bedrock.Decode(resp).Success?
      ensures summary.Success? ==> summary.value == Bedrock.Decode(resp).value
    {
      var existing := LoadRequests();
      if existing.Failure? && existing.error == UnreadableRequests {
        return Failure(UnreadableRequests), None;
      }
      prompt := Some(RequesterPrompt(doc, desc));
      var decoded := Bedrock.Decode(resp);
      if decoded.Failure? {
        return Failure(MalformedResponse(decoded.error)), prompt;
      }
      objects := objects[RequestsKey := RequestList([AuditRequest(doc, desc, Some(decoded.value))])];
      summary := Success(decoded.value);
    }

    /**
     * app.py:74-193 and auditee_page.py:29-139: load the list, summarise it, and when a file
     * is uploaded store it under its own name and check it against the list loaded first.
     * `prompts` lists the prompts sent to the model, in order.
     */
    method SubmitterView(page: Page, summaryResp: Bedrock.Response, upload: Option<Upload>, jobId: string,
                         script: seq<Textract.JobResponse>, syncBlocks: seq<Textract.Block>, corrResp: Bedrock.Response)
      returns (r: Result<View, PipelineError>, prompts: seq<string>)
      requires upload.Some? ==> UploaderAccepts(upload.value.name)
      requires upload.Some? && Textract.ModeOf(upload.value.name) == Textract.Async ==> Textract.HasTerminal(script)
      modifies this
      ensures r == ViewOutcome(page, old(objects), summaryResp, upload, jobId, script, syncBlocks, corrResp)
      ensures objects == ViewObjects(old(objects), summaryResp, upload)
      ensures StoredRequests(objects) == old(StoredRequests(objects))
      ensures old(StoredRequests(objects)).Success? ==> prompts != [] && prompts[0] == SummaryPrompt(old(StoredRequests(objects)).value)
      ensures old(StoredRequests(objects)).Failure? ==> prompts == []
    {
      prompts := [];
      var requests := LoadRequests();
      if requests.Failure? {
        return Failure(requests.error), prompts;
      }
      prompts := [SummaryPrompt(requests.value)];
      var summary := Bedrock.Decode(summaryResp);
      if summary.Failure? {
        return Failure(MalformedResponse(summary.error)), prompts;
      }
      if upload.None? {
        return Success(View(summary.value, None)), prompts;
      }
      UploadKeepsRequests(objects, summaryResp, upload);
      objects := objects[upload.value.name := FileBytes(upload.value.content)];
      var check, ocrCalls, corrective := CheckUpload(page, requests.value, upload.value.name, jobId, script, syncBlocks, corrResp);
      prompts := prompts + corrective;
      if check.Failure? {
        return Failure(check.error), prompts;
      }
      r := Success(View(summary.value, Some(check.value)));
    }
  }
}
