/**
 * The keyword compliance check and the prompts built around it. Each request's keyword is
 * the first whitespace token of its document name, lower-cased; the request is compliant
 * when the keyword occurs in some lower-cased extracted line. Verdicts go into a dict keyed
 * by document name, modelled as its insertion-ordered keys and a key-to-value map.
 */
module Compliance {
  import opened Wrappers
  import opened Text
  import Bedrock

  /** A stored audit request: `{"doc", "desc"}` plus the `"summary"` the requester page adds. */
  datatype AuditRequest = AuditRequest(doc: string, desc: string, summary: Option<Bedrock.Json>)

  /**
   * The `compliance` dict: its keys in insertion order and its key-to-value map. A Python
   * dict keeps a reassigned key at its first position.
   */
  datatype Verdicts = Verdicts(keys: seq<string>, compliant: map<string, bool>)

  /** Which page runs the pipeline: app.py or auditee_page.py. */
  datatype Page = AppPage | AuditeePage

  /** `doc.split()[0].lower()`; `None` is the `IndexError` of an empty or blank name. */
  function Keyword(doc: string): (k: Option<string>)
    ensures k.None? <==> AllSpace(doc)
    ensures k.Some? ==> k.value != [] && NoSpace(k.value)
  {
    match FirstToken(doc)
    case None => None
    case Some(t) =>
      assert forall i :: 0 <= i < |t| ==> !IsSpace(LowerChar(t[i]));
      Some(Lower(t))
  }

  /** `any(keyword in line.lower() for line in lines)`. */
  function AnyLineContains(keyword: string, lines: seq<string>): (b: bool)
    ensures b <==> exists i :: 0 <= i < |lines| && Contains(Lower(lines[i]), keyword)
  {
    if lines == [] then false
    else
      assert forall i :: 1 <= i < |lines| ==> lines[i] == lines[1..][i - 1];
      Contains(Lower(lines[0]), keyword) || AnyLineContains(keyword, lines[1..])
  }

  /** The verdict a request with this name gets against these lines. */
  predicate Compliant(doc: string, lines: seq<string>) {
    match Keyword(doc)
    case None => false
    case Some(k) => AnyLineContains(k, lines)
  }

  /** The dict invariant: every key once, and exactly the keys of the map. */
  predicate WellFormed(d: Verdicts) {
    && (forall i, j :: 0 <= i < j < |d.keys| ==> d.keys[i] != d.keys[j])
    && (forall k :: k in d.keys ==> k in d.compliant)
    && (forall k :: k in d.compliant ==> k in d.keys)
  }

  /** `d[doc] = ok`: an existing key keeps its position and takes the new value; a new key goes last. */
  function Assign(d: Verdicts, doc: string, ok: bool): (r: Verdicts)
    requires WellFormed(d)
    ensures WellFormed(r)
  {
    Verdicts(if doc in d.compliant then d.keys else d.keys + [doc], d.compliant[doc := ok])
  }

  /**
   * The dict the `for r in requests` loop builds, left to right; the first request with a
   * blank name raises, named by its document name.
   */
  function VerdictsOf(requests: seq<AuditRequest>, lines: seq<string>): (r: Result<Verdicts, string>)
    ensures r.Success? ==> WellFormed(r.value)
    decreases |requests|
  {
    if requests == [] then Success(Verdicts([], map[]))
    else
      var r := requests[|requests| - 1];
      match VerdictsOf(requests[..|requests| - 1], lines)
      case Failure(e) => Failure(e)
      case Success(d) =>
        match Keyword(r.doc)
        case None => Failure(r.doc)
        case Some(k) => Success(Assign(d, r.doc, AnyLineContains(k, lines)))
  }

  /** A raise in the loop ends the whole loop with that error. */
  lemma {:induction false} FailureIsFinal(requests: seq<AuditRequest>, lines: seq<string>, n: nat)
    requires n <= |requests|
    requires VerdictsOf(requests[..n], lines).Failure?
    ensures VerdictsOf(requests, lines) == VerdictsOf(requests[..n], lines)
    decreases |requests| - n
  {
    if n < |requests| {
      var m := |requests| - 1;
      assert requests[..m][..n] == requests[..n];
      FailureIsFinal(requests[..m], lines, n);
    } else {
      assert requests[..n] == requests;
    }
  }

  /** app.py:156-159 and auditee_page.py:105-108: the `compliance` dict filled by a loop. */
  method BuildCompliance(requests: seq<AuditRequest>, lines: seq<string>) returns (r: Result<Verdicts, string>)
    ensures r == VerdictsOf(requests, lines)
  {
    var compliance := Verdicts([], map[]);
    for i := 0 to |requests|
      invariant VerdictsOf(requests[..i], lines) == Success(compliance)
    {
      var request := requests[i];
      var keyword := Keyword(request.doc);
      VerdictsExtend(requests, lines, i);
      if keyword.None? {
        FailureIsFinal(requests, lines, i + 1);
        return Failure(request.doc);
      }
      compliance := Assign(compliance, request.doc, AnyLineContains(keyword.value, lines));
    }
    assert requests[..|requests|] == requests;
    return Success(compliance);
  }

  /** The loop's next iteration, on a prefix that has not raised. */
  lemma VerdictsExtend(requests: seq<AuditRequest>, lines: seq<string>, i: nat)
    requires i < |requests| && VerdictsOf(requests[..i], lines).Success?
    ensures var d := VerdictsOf(requests[..i], lines).value;
      VerdictsOf(requests[..i + 1], lines)
      == match Keyword(requests[i].doc)
         case None => Failure(requests[i].doc)
         case Some(k) => Success(Assign(d, requests[i].doc, AnyLineContains(k, lines)))
  {
    assert requests[..i + 1][..i] == requests[..i];
  }

  /** `all(compliance.values())`. */
  predicate AllCompliant(d: Verdicts) {
    forall k :: k in d.compliant ==> d.compliant[k]
  }

  /** `[doc for doc, ok in compliance.items() if not ok]`, over the keys in order. */
  function MissingAmong(keys: seq<string>, compliant: map<string, bool>): (m: seq<string>)
    requires forall k :: k in keys ==> k in compliant
    ensures forall x :: x in m <==> x in keys && !compliant[x]
  {
    if keys == [] then []
    else (if compliant[keys[0]] then [] else [keys[0]]) + MissingAmong(keys[1..], compliant)
  }

  function Missing(d: Verdicts): (m: seq<string>)
    requires WellFormed(d)
    ensures m == [] <==> AllCompliant(d)
    ensures forall k :: k in m <==> k in d.compliant && !d.compliant[k]
  {
    var m := MissingAmong(d.keys, d.compliant);
    assert m == [] <==> AllCompliant(d) by {
      if m == [] {
        forall k | k in d.compliant
          ensures d.compliant[k]
        {
          assert k in d.keys && k !in m;
        }
      } else {
        assert m[0] in m;
      }
    }
    m
  }

  /** The comprehension keeps key order: the missing keys of a concatenation are those of each part, in turn. */
  lemma {:induction false} MissingAmongAppend(a: seq<string>, b: seq<string>, compliant: map<string, bool>)
    requires forall k :: k in a ==> k in compliant
    requires forall k :: k in b ==> k in compliant
    ensures MissingAmong(a + b, compliant) == MissingAmong(a, compliant) + MissingAmong(b, compliant)
    decreases |a|
  {
    if a != [] {
      var head := if compliant[a[0]] then [] else [a[0]];
      assert (a + b)[0] == a[0] && (a + b)[1..] == a[1..] + b;
      assert MissingAmong(a + b, compliant) == head + MissingAmong(a[1..] + b, compliant);
      MissingAmongAppend(a[1..], b, compliant);
    } else {
      assert a + b == b;
    }
  }

  /** Of two non-compliant keys, the earlier one in the dict comes earlier in `missing`. */
  lemma MissingInKeyOrder(d: Verdicts, i: nat, j: nat)
    requires WellFormed(d)
    requires i < j < |d.keys| && !d.compliant[d.keys[i]] && !d.compliant[d.keys[j]]
    ensures exists p, q :: 0 <= p < q < |Missing(d)| && Missing(d)[p] == d.keys[i] && Missing(d)[q] == d.keys[j]
  {
    var p, q := MissingAmongOrder(d.keys, d.compliant, i, j);
    assert Missing(d) == MissingAmong(d.keys, d.compliant);
    assert Missing(d)[p] == d.keys[i] && Missing(d)[q] == d.keys[j];
  }

  /** The positions in the filtered list of two kept keys, in the order of the keys. */
  lemma MissingAmongOrder(keys: seq<string>, compliant: map<string, bool>, i: nat, j: nat) returns (p: nat, q: nat)
    requires forall k :: k in keys ==> k in compliant
    requires i < j < |keys| && !compliant[keys[i]] && !compliant[keys[j]]
    ensures p < q < |MissingAmong(keys, compliant)|
    ensures MissingAmong(keys, compliant)[p] == keys[i] && MissingAmong(keys, compliant)[q] == keys[j]
  {
    var before, after := keys[..j], keys[j..];
    assert keys == before + after;
    MissingAmongAppend(before, after, compliant);
    var m1 := MissingAmong(before, compliant);
    assert keys[i] == before[i] && keys[i] in m1;
    p :| 0 <= p < |m1| && m1[p] == keys[i];
    q := |m1|;
    assert MissingAmong(after, compliant)[0] == keys[j];
  }

  /** Document names in order of first occurrence. */
  function Distinct(s: seq<string>): (r: seq<string>)
    ensures forall x :: x in r <==> x in s
    ensures forall i, j :: 0 <= i < j < |r| ==> r[i] != r[j]
  {
    if s == [] then []
    else
      var p := Distinct(s[..|s| - 1]);
      assert forall x :: x in s <==> x in s[..|s| - 1] || x == s[|s| - 1];
      if s[|s| - 1] in p then p else p + [s[|s| - 1]]
  }

  function RequestDocs(requests: seq<AuditRequest>): (r: seq<string>)
    ensures |r| == |requests| && forall i :: 0 <= i < |requests| ==> r[i] == requests[i].doc
  {
    seq(|requests|, i requires 0 <= i < |requests| => requests[i].doc)
  }

  /** One iteration of the loop raises exactly when an earlier one did or this name is blank. */
  lemma VerdictsStep(requests: seq<AuditRequest>, lines: seq<string>)
    requires requests != []
    ensures var n := |requests| - 1;
      && (VerdictsOf(requests[..n], lines).Failure? ==> VerdictsOf(requests, lines) == VerdictsOf(requests[..n], lines))
      && (VerdictsOf(requests[..n], lines).Success? && AllSpace(requests[n].doc) ==> VerdictsOf(requests, lines) == Failure(requests[n].doc))
      && (VerdictsOf(requests[..n], lines).Success? && !AllSpace(requests[n].doc) ==> VerdictsOf(requests, lines).Success?)
  {
  }

  /** Some requested document name is blank. */
  predicate SomeBlank(requests: seq<AuditRequest>) {
    exists i :: 0 <= i < |requests| && AllSpace(requests[i].doc)
  }

  lemma SomeBlankStep(requests: seq<AuditRequest>)
    requires requests != []
    ensures var n := |requests| - 1;
      SomeBlank(requests) <==> SomeBlank(requests[..n]) || AllSpace(requests[n].doc)
  {
    var n := |requests| - 1;
    if SomeBlank(requests) && !AllSpace(requests[n].doc) {
      var i :| 0 <= i < |requests| && AllSpace(requests[i].doc);
      assert requests[..n][i] == requests[i];
    }
    if SomeBlank(requests[..n]) {
      var i :| 0 <= i < n && AllSpace(requests[..n][i].doc);
      assert requests[i] == requests[..n][i];
    }
  }

  /** The loop raises exactly when some name is blank. */
  lemma {:induction false} VerdictsFailIffBlank(requests: seq<AuditRequest>, lines: seq<string>)
    ensures VerdictsOf(requests, lines).Failure? <==> SomeBlank(requests)
    decreases |requests|
  {
    if requests != [] {
      VerdictsFailIffBlank(requests[..|requests| - 1], lines);
      VerdictsStep(requests, lines);
      SomeBlankStep(requests);
    }
  }

  /** When it raises, the error names the first request whose name is blank. */
  lemma {:induction false} VerdictsNameFirstBlank(requests: seq<AuditRequest>, lines: seq<string>, i: nat)
    requires i < |requests| && AllSpace(requests[i].doc) && NoBlankBefore(requests, i)
    ensures VerdictsOf(requests, lines) == Failure(requests[i].doc)
    decreases |requests|
  {
    var n := |requests| - 1;
    var prefix := requests[..n];
    VerdictsStep(requests, lines);
    if i < n {
      assert prefix[i] == requests[i];
      NoBlankBeforePrefix(requests, n, i);
      VerdictsNameFirstBlank(prefix, lines, i);
    } else {
      VerdictsFailIffBlank(prefix, lines);
      NoBlankBeforePrefix(requests, n, n);
    }
  }

  /** No request before position `i` has a blank name. */
  predicate NoBlankBefore(requests: seq<AuditRequest>, i: nat)
    requires i <= |requests|
  {
    forall j :: 0 <= j < i ==> !AllSpace(requests[j].doc)
  }

  lemma NoBlankBeforePrefix(requests: seq<AuditRequest>, m: nat, i: nat)
    requires i <= m <= |requests| && NoBlankBefore(requests, i)
    ensures NoBlankBefore(requests[..m], i)
    ensures i == m ==> !SomeBlank(requests[..m])
  {
    assert forall j :: 0 <= j < i ==> requests[..m][j] == requests[j];
  }

  /**
   * On success the dict has one key per distinct document name, in order of first
   * occurrence, and each key holds that name's keyword verdict (a repeated name collapses;
   * the later assignment wins, with the same value).
   */
  lemma {:induction false} VerdictsContents(requests: seq<AuditRequest>, lines: seq<string>)
    requires VerdictsOf(requests, lines).Success?
    ensures var d := VerdictsOf(requests, lines).value;
      && d.keys == Distinct(RequestDocs(requests))
      && forall k :: k in d.compliant ==> d.compliant[k] == Compliant(k, lines)
    decreases |requests|
  {
    if requests != [] {
      var n := |requests| - 1;
      var prefix := requests[..n];
      VerdictsLastStep(requests, lines);
      VerdictsContents(prefix, lines);
      var before := VerdictsOf(prefix, lines).value;
      AssignKeys(before, RequestDocs(prefix), requests[n].doc, Compliant(requests[n].doc, lines));
      AssignValues(before, requests[n].doc, lines);
      RequestDocsSnoc(requests);
    }
  }

  lemma RequestDocsSnoc(requests: seq<AuditRequest>)
    requires requests != []
    ensures var n := |requests| - 1;
      RequestDocs(requests) == RequestDocs(requests[..n]) + [requests[n].doc]
  {
    var n := |requests| - 1;
    assert RequestDocs(requests) == RequestDocs(requests[..n]) + [requests[n].doc];
  }

  /** Assigning a name its own verdict keeps every value the verdict of its key. */
  lemma AssignValues(d: Verdicts, doc: string, lines: seq<string>)
    requires WellFormed(d) && forall k :: k in d.compliant ==> d.compliant[k] == Compliant(k, lines)
    ensures var r := Assign(d, doc, Compliant(doc, lines));
      forall k :: k in r.compliant ==> r.compliant[k] == Compliant(k, lines)
  {
  }

  /** A successful iteration assigns the request's verdict to its name. */
  lemma VerdictsLastStep(requests: seq<AuditRequest>, lines: seq<string>)
    requires requests != [] && VerdictsOf(requests, lines).Success?
    ensures var n := |requests| - 1;
      && VerdictsOf(requests[..n], lines).Success?
      && VerdictsOf(requests, lines).value
         == Assign(VerdictsOf(requests[..n], lines).value, requests[n].doc, Compliant(requests[n].doc, lines))
  {
  }

  /** Assigning a name extends the keys exactly as appending it extends the distinct names. */
  lemma AssignKeys(d: Verdicts, docs: seq<string>, doc: string, ok: bool)
    requires WellFormed(d) && d.keys == Distinct(docs)
    ensures Assign(d, doc, ok).keys == Distinct(docs + [doc])
  {
    assert (docs + [doc])[..|docs|] == docs;
  }

  /** The corrective branch runs exactly when some request's keyword is found in no line. */
  lemma CorrectiveIffSomeNonCompliant(requests: seq<AuditRequest>, lines: seq<string>)
    requires VerdictsOf(requests, lines).Success?
    ensures Missing(VerdictsOf(requests, lines).value) != []
            <==> exists i :: 0 <= i < |requests| && !Compliant(requests[i].doc, lines)
  {
    var d := VerdictsOf(requests, lines).value;
    VerdictsContents(requests, lines);
    if i :| 0 <= i < |requests| && !Compliant(requests[i].doc, lines) {
      assert RequestDocs(requests)[i] == requests[i].doc;
      assert requests[i].doc in d.keys;
    }
    if k :| k in d.compliant && !d.compliant[k] {
      assert k in RequestDocs(requests);
      var i :| 0 <= i < |requests| && RequestDocs(requests)[i] == k;
      assert !Compliant(requests[i].doc, lines);
    }
  }

  /** With no extracted lines every request is non-compliant; with no requests the check passes. */
  lemma EdgeCases(requests: seq<AuditRequest>, lines: seq<string>)
    ensures VerdictsOf([], lines) == Success(Verdicts([], map[])) && Missing(Verdicts([], map[])) == []
    ensures VerdictsOf(requests, []).Success? ==>
      forall k :: k in VerdictsOf(requests, []).value.compliant ==> !VerdictsOf(requests, []).value.compliant[k]
  {
    if VerdictsOf(requests, []).Success? {
      VerdictsContents(requests, []);
    }
  }

  const ComplianceIntro := "You are a compliance assistant. "
  const NoDisclaimer := "Do not include any personal advice disclaimer. "

  /** `lines[:5]`. */
  function FirstFive(lines: seq<string>): seq<string> {
    if |lines| <= 5 then lines else lines[..5]
  }

  const WrongDocument := "You received the wrong document. OCR detected: "
  const LookingFor := "... We were looking for "
  const AskForExample := ". Generate a message explaining the mismatch and an example of the correct document format."

  /** The corrective prompt after its first sentence (and app.py's disclaimer sentence). */
  function CorrectiveBody(lines: seq<string>, missing: seq<string>): string {
    WrongDocument + Join(FirstFive(lines), ", ") + LookingFor + Join(missing, ", ") + AskForExample
  }

  /**
   * The corrective prompt: the first five lines and every missing name, each joined by
   * `", "`. Only app.py asks for no disclaimer.
   */
  function CorrectivePrompt(page: Page, lines: seq<string>, missing: seq<string>): string {
    ComplianceIntro + (if page == AppPage then NoDisclaimer else "") + CorrectiveBody(lines, missing)
  }

  /** Only the first five lines reach the prompt: lines appended after a fifth one change nothing. */
  lemma CorrectivePromptSeesFiveLines(page: Page, lines: seq<string>, more: seq<string>, missing: seq<string>)
    ensures CorrectivePrompt(page, lines, missing) == CorrectivePrompt(page, FirstFive(lines), missing)
    ensures |lines| >= 5 ==> CorrectivePrompt(page, lines + more, missing) == CorrectivePrompt(page, lines, missing)
  {
    if |lines| >= 5 {
      assert (lines + more)[..5] == lines[..5];
      assert FirstFive(lines + more) == FirstFive(lines);
    }
  }

  /** The app.py prompt is the auditee_page.py prompt with the disclaimer sentence after the first. */
  lemma DisclaimerOnlyInApp(lines: seq<string>, missing: seq<string>)
    ensures var auditee := CorrectivePrompt(AuditeePage, lines, missing);
      |auditee| >= |ComplianceIntro| && auditee[..|ComplianceIntro|] == ComplianceIntro
      && CorrectivePrompt(AppPage, lines, missing) == ComplianceIntro + NoDisclaimer + auditee[|ComplianceIntro|..]
  {
    var body := CorrectiveBody(lines, missing);
    var auditee := CorrectivePrompt(AuditeePage, lines, missing);
    assert auditee == ComplianceIntro + body;
    assert auditee[|ComplianceIntro|..] == body;
  }

  lemma {:induction false} JoinContainsParts(parts: seq<string>, sep: string, k: nat)
    requires k < |parts|
    ensures Contains(Join(parts, sep), parts[k])
    decreases |parts|
  {
    var j := Join(parts, sep);
    if k == 0 {
      assert OccursAt(parts[0], j, 0);
    } else {
      JoinContainsParts(parts[1..], sep, k - 1);
      ContainsIff(Join(parts[1..], sep), parts[k]);
      var i :| OccursAt(parts[k], Join(parts[1..], sep), i);
      var off := |parts[0]| + |sep|;
      assert j == parts[0] + sep + Join(parts[1..], sep);
      assert j[off + i..off + i + |parts[k]|] == Join(parts[1..], sep)[i..i + |parts[k]|];
      assert OccursAt(parts[k], j, off + i);
    }
    ContainsIff(j, parts[k]);
  }

  lemma ContainsInside(pre: string, s: string, post: string, x: string)
    requires Contains(s, x)
    ensures Contains(pre + s + post, x)
  {
    ContainsIff(s, x);
    var i :| OccursAt(x, s, i);
    var whole := pre + s + post;
    assert whole[|pre| + i..|pre| + i + |x|] == s[i..i + |x|];
    assert OccursAt(x, whole, |pre| + i);
    ContainsIff(whole, x);
  }

  /** Every missing document name appears in the corrective prompt. */
  lemma CorrectivePromptNamesMissing(page: Page, lines: seq<string>, missing: seq<string>, k: nat)
    requires k < |missing|
    ensures Contains(CorrectivePrompt(page, lines, missing), missing[k])
  {
    JoinContainsParts(missing, ", ", k);
    var lead := WrongDocument + Join(FirstFive(lines), ", ") + LookingFor;
    ContainsInside(lead, Join(missing, ", "), AskForExample, missing[k]);
    ContainsInside(ComplianceIntro + (if page == AppPage then NoDisclaimer else ""), CorrectiveBody(lines, missing), "", missing[k]);
    assert CorrectivePrompt(page, lines, missing)
      == ComplianceIntro + (if page == AppPage then NoDisclaimer else "") + CorrectiveBody(lines, missing) + "";
  }

  const SummaryHeadLine := "Summarize these audit requests in plain English for a non-expert and give an example for each:"

  /** `f"- {r['doc']}: {r['desc']}"`. */
  function Bullet(r: AuditRequest): string {
    "- " + r.doc + ": " + r.desc
  }

  function Bullets(requests: seq<AuditRequest>): (b: seq<string>)
    ensures |b| == |requests| && forall i :: 0 <= i < |requests| ==> b[i] == Bullet(requests[i])
  {
    seq(|requests|, i requires 0 <= i < |requests| => Bullet(requests[i]))
  }

  /** The submitter page's summary prompt: a fixed header, a blank line, one bullet per request. */
  function SummaryPrompt(requests: seq<AuditRequest>): string {
    SummaryHeadLine + "\n" + "\n" + Join(Bullets(requests), "\n")
  }

  lemma {:induction false} JoinAppend(parts: seq<string>, sep: string, x: string)
    requires parts != []
    ensures Join(parts + [x], sep) == Join(parts, sep) + sep + x
    decreases |parts|
  {
    if |parts| > 1 {
      assert (parts + [x])[1..] == parts[1..] + [x];
      JoinAppend(parts[1..], sep, x);
    }
  }

  /**
   * The summary prompt holds one `- doc: desc` line per request, in list order: a further
   * request adds a newline and its bullet at the end, and the first one follows the header
   * and a blank line.
   */
  lemma SummaryPromptGrows(requests: seq<AuditRequest>, r: AuditRequest)
    ensures SummaryPrompt([r]) == SummaryHeadLine + "\n" + "\n" + Bullet(r)
    ensures requests != [] ==> SummaryPrompt(requests + [r]) == SummaryPrompt(requests) + "\n" + Bullet(r)
  {
    assert Bullets([r]) == [Bullet(r)];
    if requests != [] {
      assert Bullets(requests + [r]) == Bullets(requests) + [Bullet(r)];
      JoinAppend(Bullets(requests), "\n", Bullet(r));
    }
  }

  const RequesterHeadLine := "Summarize this audit request for a non-expert and give one concrete example:"

  /** app.py's requester prompt for one new request. */
  function RequesterPrompt(doc: string, desc: string): string {
    RequesterHeadLine + "\n" + "Document: " + doc + "\n" + "Description: " + desc
  }
}
