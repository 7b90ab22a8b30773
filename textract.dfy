/**
 * Text detection (Textract): which detection path a file name selects, the poll loop of the
 * asynchronous path, the LINE-block filter and `extractText`'s newline join. The remote
 * service is represented by its responses only: the poll loop reads a scripted sequence of
 * `get_document_text_detection` responses.
 */
module Textract {
  import opened Wrappers
  import opened Text

  /** A block of a Textract response: its `BlockType` and its `Text`. */
  datatype Block = Block(blockType: string, text: string)

  /** One `get_document_text_detection` response: `JobStatus` and `Blocks`. */
  datatype JobResponse = JobResponse(jobStatus: string, blocks: seq<Block>)

  /** The Textract calls the pipeline issues, in order. */
  datatype OcrCall =
    | StartDocumentTextDetection(name: string)
    | GetDocumentTextDetection(jobId: string)
    | DetectDocumentText(name: string)

  datatype Mode = Async | Sync

  const LineType := "LINE"
  const Succeeded := "SUCCEEDED"
  const Failed := "FAILED"

  /** `[b['Text'] for b in blocks if b['BlockType'] == 'LINE']`. */
  function ExtractLines(blocks: seq<Block>): (lines: seq<string>)
    ensures |lines| <= |blocks|
    ensures forall i :: 0 <= i < |blocks| && blocks[i].blockType == LineType ==> blocks[i].text in lines
    ensures forall t :: t in lines ==> exists i :: 0 <= i < |blocks| && blocks[i].blockType == LineType && blocks[i].text == t
  {
    if blocks == [] then []
    else
      var rest := ExtractLines(blocks[1..]);
      assert forall i :: 1 <= i < |blocks| ==> blocks[i] == blocks[1..][i - 1];
      if blocks[0].blockType == LineType then [blocks[0].text] + rest else rest
  }

  /** The filter keeps block order: it distributes over concatenation. */
  lemma {:induction false} ExtractLinesAppend(b1: seq<Block>, b2: seq<Block>)
    ensures ExtractLines(b1 + b2) == ExtractLines(b1) + ExtractLines(b2)
  {
    if b1 != [] {
      assert (b1 + b2)[1..] == b1[1..] + b2;
      ExtractLinesAppend(b1[1..], b2);
    } else {
      assert b1 + b2 == b2;
    }
  }

  /** `'\n'.join(lines)`, as `extractText` returns it. */
  function ExtractText(blocks: seq<Block>): string {
    Join(ExtractLines(blocks), "\n")
  }

  /** Without LINE blocks the text is empty. */
  lemma {:induction false} ExtractTextWithoutLines(blocks: seq<Block>)
    requires forall i :: 0 <= i < |blocks| ==> blocks[i].blockType != LineType
    ensures ExtractText(blocks) == ""
  {
    if blocks != [] {
      assert forall i :: 0 <= i < |blocks[1..]| ==> blocks[1..][i] == blocks[i + 1];
      ExtractTextWithoutLines(blocks[1..]);
    }
  }

  /** When there are lines and none holds a newline, splitting the text on `'\n'` gives them back. */
  lemma ExtractTextSplits(blocks: seq<Block>)
    requires ExtractLines(blocks) != []
    requires forall t :: t in ExtractLines(blocks) ==> '\n' !in t
    ensures Split(ExtractText(blocks), '\n') == ExtractLines(blocks)
  {
    SplitJoin(ExtractLines(blocks), '\n');
  }

  /** app.py: `filename.split('.')[-1].lower()`. */
  function Extension(filename: string): string {
    var pieces := Split(filename, '.');
    Lower(pieces[|pieces| - 1])
  }

  /** auditee_page.py: `filename.rsplit(".", 1)[-1].lower()`. */
  function RsplitExtension(filename: string): string {
    Lower(AfterLast(filename, '.'))
  }

  /**
   * Both pages compute the same extension: the lower-cased text after the last dot, and
   * the whole lower-cased name when there is no dot.
   */
  lemma ExtensionsAgree(filename: string)
    ensures Extension(filename) == RsplitExtension(filename)
    ensures '.' !in filename ==> Extension(filename) == Lower(filename)
  {
    SplitLastIsAfterLast(filename, '.');
    AfterLastShape(filename, '.');
  }

  /** `pdf` selects the asynchronous start-and-poll path, anything else one synchronous call. */
  function ModeOf(filename: string): Mode {
    if Extension(filename) == "pdf" then Async else Sync
  }

  predicate IsTerminal(status: string) {
    status == Succeeded || status == Failed
  }

  predicate HasTerminal(script: seq<JobResponse>) {
    exists i :: 0 <= i < |script| && IsTerminal(script[i].jobStatus)
  }

  /** Index of the first response with a terminal status. */
  function FirstTerminal(script: seq<JobResponse>): (k: nat)
    requires HasTerminal(script)
    ensures k < |script| && IsTerminal(script[k].jobStatus)
    ensures forall j :: 0 <= j < k ==> !IsTerminal(script[j].jobStatus)
  {
    if IsTerminal(script[0].jobStatus) then 0
    else
      var i :| 0 <= i < |script| && IsTerminal(script[i].jobStatus);
      assert script[1..][i - 1] == script[i];
      var k := FirstTerminal(script[1..]);
      assert forall j :: 1 <= j < k + 1 ==> script[j] == script[1..][j - 1];
      1 + k
  }

  /** `RuntimeError(f"Textract job {job_id} failed")`. */
  function JobFailedMessage(jobId: string): string {
    "Textract job " + jobId + " failed"
  }

  /** What the poll loop ends with: the first terminal response's blocks, or the failure. */
  function PollOutcome(jobId: string, script: seq<JobResponse>): Result<seq<Block>, string>
    requires HasTerminal(script)
  {
    var last := script[FirstTerminal(script)];
    if last.jobStatus == Succeeded then Success(last.blocks) else Failure(JobFailedMessage(jobId))
  }

  /**
   * The `while True` loop: poll, return the blocks of a SUCCEEDED response, raise on a
   * FAILED one, otherwise sleep and poll again. There is no timeout, so the script must
   * reach a terminal status.
   */
  method PollUntilTerminal(jobId: string, script: seq<JobResponse>) returns (r: Result<seq<Block>, string>, polls: nat)
    requires HasTerminal(script)
    ensures polls == FirstTerminal(script) + 1
    ensures r == PollOutcome(jobId, script)
    ensures r.Success? <==> script[polls - 1].jobStatus == Succeeded
  {
    var i := 0;
    while true
      invariant 0 <= i <= FirstTerminal(script)
      decreases FirstTerminal(script) - i
    {
      var response := script[i];
      var status := response.jobStatus;
      if status == Succeeded {
        return Success(response.blocks), i + 1;
      } else if status == Failed {
        return Failure(JobFailedMessage(jobId)), i + 1;
      }
      i := i + 1;
    }
  }

  function Repeat<T>(x: T, n: nat): (r: seq<T>)
    ensures |r| == n && forall i :: 0 <= i < n ==> r[i] == x
  {
    if n == 0 then [] else [x] + Repeat(x, n - 1)
  }

  /** The blocks the detection step ends with, or the job failure. */
  function OcrOutcome(filename: string, jobId: string, script: seq<JobResponse>, syncBlocks: seq<Block>): Result<seq<Block>, string>
    requires ModeOf(filename) == Async ==> HasTerminal(script)
  {
    if ModeOf(filename) == Async then PollOutcome(jobId, script) else Success(syncBlocks)
  }

  /**
   * The detection step of both pages: a `pdf` file starts a job and polls it until it is
   * terminal; any other file gets exactly one synchronous detection call.
   */
  method RunOcr(filename: string, jobId: string, script: seq<JobResponse>, syncBlocks: seq<Block>)
    returns (r: Result<seq<Block>, string>, calls: seq<OcrCall>)
    requires ModeOf(filename) == Async ==> HasTerminal(script)
    ensures r == OcrOutcome(filename, jobId, script, syncBlocks)
    ensures ModeOf(filename) == Async ==>
      calls == [StartDocumentTextDetection(filename)] + Repeat(GetDocumentTextDetection(jobId), FirstTerminal(script) + 1)
    ensures ModeOf(filename) == Sync ==> calls == [DetectDocumentText(filename)]
  {
    var ext := Extension(filename);
    if ext == "pdf" {
      var polls;
      r, polls := PollUntilTerminal(jobId, script);
      calls := [StartDocumentTextDetection(filename)] + Repeat(GetDocumentTextDetection(jobId), polls);
    } else {
      r := Success(syncBlocks);
      calls := [DetectDocumentText(filename)];
    }
  }

  /** A scripted job that reports SUBMITTED, IN_PROGRESS, IN_PROGRESS, SUCCEEDED is polled four times. */
  lemma FourthPollSucceeds(b: seq<Block>)
    ensures var script := [JobResponse("SUBMITTED", []), JobResponse("IN_PROGRESS", []),
                           JobResponse("IN_PROGRESS", []), JobResponse(Succeeded, b)];
      HasTerminal(script) && FirstTerminal(script) + 1 == 4 && PollOutcome("job", script) == Success(b)
  {
    var script := [JobResponse("SUBMITTED", []), JobResponse("IN_PROGRESS", []),
                   JobResponse("IN_PROGRESS", []), JobResponse(Succeeded, b)];
    assert IsTerminal(script[3].jobStatus);
  }
}
